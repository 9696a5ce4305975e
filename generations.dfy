/**
 * networkx's `topological_generations`, Kahn's algorithm by generations:
 * take every node whose remaining in-degree is 0, remove them, repeat. It
 * stops with an error when nodes remain but none has in-degree 0.
 */
module Generations {
  import opened Wrappers
  import opened DiGraphs

  /** Some edge into `v` starts at a node that has not been removed yet. */
  predicate HasLivePredecessor(v: string, remaining: seq<string>, edges: seq<Edge>)
  {
    exists e :: e in edges && e.1 == v && e.0 in remaining
  }

  /** The nodes of `s` whose in-degree among `remaining` is 0, in order. */
  function Sources(s: seq<string>, remaining: seq<string>, edges: seq<Edge>): seq<string>
  {
    if |s| == 0 then []
    else
      var x := s[|s| - 1];
      Sources(s[..|s| - 1], remaining, edges) + (if HasLivePredecessor(x, remaining, edges) then [] else [x])
  }

  lemma {:induction false} SourcesMembers(s: seq<string>, remaining: seq<string>, edges: seq<Edge>, x: string)
    ensures x in Sources(s, remaining, edges) <==> x in s && !HasLivePredecessor(x, remaining, edges)
  {
    if |s| > 0 {
      InSplitLast(s, x);
      SourcesMembers(s[..|s| - 1], remaining, edges, x);
    }
  }

  /** `s` without the elements of `z`, in order. */
  function Without(s: seq<string>, z: seq<string>): (r: seq<string>)
    ensures |r| <= |s|
  {
    if |s| == 0 then []
    else
      var x := s[|s| - 1];
      Without(s[..|s| - 1], z) + (if x in z then [] else [x])
  }

  lemma {:induction false} WithoutMembers(s: seq<string>, z: seq<string>, x: string)
    ensures x in Without(s, z) <==> x in s && x !in z
  {
    if |s| > 0 {
      InSplitLast(s, x);
      WithoutMembers(s[..|s| - 1], z, x);
    }
  }

  /** Removing a present element shortens the sequence. */
  lemma {:induction false} WithoutShrinks(s: seq<string>, z: seq<string>, x: string)
    requires x in s && x in z
    ensures |Without(s, z)| < |s|
  {
    InSplitLast(s, x);
    if x != s[|s| - 1] {
      WithoutShrinks(s[..|s| - 1], z, x);
    }
  }

  /**
   * The generations yielded, in order, and whether the generator then
   * raised because nodes remained on a cycle.
   */
  datatype Generated = Generated(generations: seq<seq<string>>, cyclic: bool)

  function Generate(remaining: seq<string>, edges: seq<Edge>): (r: Generated)
    ensures |r.generations| <= |remaining|
    ensures |remaining| > 0 ==> r.cyclic || |r.generations| > 0
    decreases |remaining|
  {
    if |remaining| == 0 then Generated([], false)
    else
      var z := Sources(remaining, remaining, edges);
      if |z| == 0 then Generated([], true)
      else
        SourcesMembers(remaining, remaining, edges, z[0]);
        WithoutShrinks(remaining, z, z[0]);
        var r := Generate(Without(remaining, z), edges);
        Generated([z] + r.generations, r.cyclic)
  }

  /** `nx.topological_generations(g)`. */
  function TopologicalGenerations(g: Graph): (r: Generated)
    ensures |r.generations| <= |g.nodes|
    ensures |g.nodes| > 0 ==> r.cyclic || |r.generations| > 0
  {
    Generate(g.nodes, g.edges)
  }

  /**
   * A generator that yields something yields the current sources first and
   * then whatever it yields on the nodes that remain after them.
   */
  lemma {:induction false} GenerateUnfold(remaining: seq<string>, edges: seq<Edge>) returns (z: seq<string>, rest: seq<string>)
    requires |Generate(remaining, edges).generations| > 0
    ensures z == Sources(remaining, remaining, edges) && |z| > 0
    ensures rest == Without(remaining, z) && |rest| < |remaining|
    ensures |Generate(remaining, edges).generations| == |Generate(rest, edges).generations| + 1
    ensures Generate(remaining, edges).generations[0] == z
    ensures forall k :: 0 < k < |Generate(remaining, edges).generations| ==>
      Generate(remaining, edges).generations[k] == Generate(rest, edges).generations[k - 1]
    ensures Generate(remaining, edges).cyclic == Generate(rest, edges).cyclic
  {
    z := Sources(remaining, remaining, edges);
    SourcesMembers(remaining, remaining, edges, z[0]);
    rest := Without(remaining, z);
    WithoutShrinks(remaining, z, z[0]);
  }

  /** The generations are non-empty and drawn from the remaining nodes. */
  lemma {:induction false} GenerationsWithin(remaining: seq<string>, edges: seq<Edge>)
    ensures var gens := Generate(remaining, edges).generations;
      && (forall i :: 0 <= i < |gens| ==> |gens[i]| > 0)
      && (forall i, x :: 0 <= i < |gens| && x in gens[i] ==> x in remaining)
    decreases |remaining|
  {
    var gens := Generate(remaining, edges).generations;
    if |gens| > 0 {
      var z, rest := GenerateUnfold(remaining, edges);
      GenerationsWithin(rest, edges);
      forall i, x | 0 <= i < |gens| && x in gens[i] ensures x in remaining {
        if i == 0 {
          SourcesMembers(remaining, remaining, edges, x);
        } else {
          assert x in Generate(rest, edges).generations[i - 1];
          WithoutMembers(remaining, z, x);
        }
      }
    }
  }

  lemma {:induction false} GenerationsDisjointAt(remaining: seq<string>, edges: seq<Edge>, i: nat, j: nat, x: string)
    requires i < j < |Generate(remaining, edges).generations|
    requires x in Generate(remaining, edges).generations[i]
    ensures x !in Generate(remaining, edges).generations[j]
    decreases |remaining|
  {
    var z, rest := GenerateUnfold(remaining, edges);
    var r := Generate(rest, edges).generations;
    if i == 0 {
      GenerationsWithin(rest, edges);
      WithoutMembers(remaining, z, x);
      assert x in r[j - 1] ==> x in rest;
    } else {
      GenerationsDisjointAt(rest, edges, i - 1, j - 1, x);
    }
  }

  /** No node is yielded in two generations. */
  lemma {:induction false} GenerationsDisjoint(remaining: seq<string>, edges: seq<Edge>)
    ensures var gens := Generate(remaining, edges).generations;
      forall i, j, x :: 0 <= i < j < |gens| && x in gens[i] ==> x !in gens[j]
  {
    var gens := Generate(remaining, edges).generations;
    forall i, j, x | 0 <= i < j < |gens| && x in gens[i] ensures x !in gens[j] {
      GenerationsDisjointAt(remaining, edges, i, j, x);
    }
  }

  /** Unless a cycle stopped the generator, every node is yielded. */
  lemma {:induction false} GenerationsCover(remaining: seq<string>, edges: seq<Edge>, x: string)
    requires !Generate(remaining, edges).cyclic && x in remaining
    ensures exists i :: 0 <= i < |Generate(remaining, edges).generations| && x in Generate(remaining, edges).generations[i]
    decreases |remaining|
  {
    var z, rest := GenerateUnfold(remaining, edges);
    var gens := Generate(remaining, edges).generations;
    if x in z {
      assert x in gens[0];
    } else {
      WithoutMembers(remaining, z, x);
      GenerationsCover(rest, edges, x);
      var i :| 0 <= i < |Generate(rest, edges).generations| && x in Generate(rest, edges).generations[i];
      assert x in gens[i + 1];
    }
  }

  /**
   * Every edge between remaining nodes whose target was yielded in some
   * generation has its source yielded in an earlier one (even when a cycle
   * later stops the generator).
   */
  lemma {:induction false} GenerationsOrderEdge(remaining: seq<string>, edges: seq<Edge>, e: Edge, j: nat)
    requires e in edges && e.0 in remaining
    requires j < |Generate(remaining, edges).generations| && e.1 in Generate(remaining, edges).generations[j]
    ensures exists i :: 0 <= i < j && e.0 in Generate(remaining, edges).generations[i]
    decreases |remaining|
  {
    var z, rest := GenerateUnfold(remaining, edges);
    var r := Generate(rest, edges).generations;
    var gens := Generate(remaining, edges).generations;
    if j == 0 {
      SourceHasNoEdgeIn(remaining, edges, e);
      assert false;
    } else {
      assert e.1 in r[j - 1];
      if e.0 in z {
        assert e.0 in gens[0];
      } else {
        WithoutMembers(remaining, z, e.0);
        GenerationsOrderEdge(rest, edges, e, j - 1);
        var i :| 0 <= i < j - 1 && e.0 in r[i];
        assert e.0 in gens[i + 1];
      }
    }
  }

  /** No edge from a remaining node ends in the first generation. */
  lemma {:induction false} SourceHasNoEdgeIn(remaining: seq<string>, edges: seq<Edge>, e: Edge)
    requires e in edges && e.0 in remaining
    requires |Generate(remaining, edges).generations| > 0
    ensures e.1 !in Generate(remaining, edges).generations[0]
  {
    var z, rest := GenerateUnfold(remaining, edges);
    SourcesMembers(remaining, remaining, edges, e.1);
    if e.1 in z {
      assert HasLivePredecessor(e.1, remaining, edges);
    }
  }

  /** The first generation holds exactly the nodes without predecessors. */
  lemma {:induction false} FirstGenerationSources(remaining: seq<string>, edges: seq<Edge>, x: string)
    requires |Generate(remaining, edges).generations| > 0
    ensures x in Generate(remaining, edges).generations[0] <==>
      x in remaining && forall u :: u in remaining ==> (u, x) !in edges
  {
    var z, rest := GenerateUnfold(remaining, edges);
    SourcesMembers(remaining, remaining, edges, x);
  }

  /**
   * The generation a node was yielded in: the index of the last generation
   * holding it, the one whose layer write the layout keeps.
   */
  function LayerOf(gens: seq<seq<string>>, x: string): (l: Option<nat>)
    ensures l.Some? ==> l.value < |gens| && x in gens[l.value]
  {
    if |gens| == 0 then None
    else if x in gens[|gens| - 1] then Some(|gens| - 1)
    else LayerOf(gens[..|gens| - 1], x)
  }

  lemma {:induction false} LayerOfIndex(gens: seq<seq<string>>, x: string, i: nat)
    requires forall a, b :: 0 <= a < b < |gens| && x in gens[a] ==> x !in gens[b]
    requires i < |gens| && x in gens[i]
    ensures LayerOf(gens, x) == Some(i)
  {
    if i < |gens| - 1 {
      assert x !in gens[|gens| - 1];
      LayerOfIndex(gens[..|gens| - 1], x, i);
    }
  }

  /**
   * A layering: a number for every remaining node that strictly increases
   * along every edge between remaining nodes.
   */
  ghost predicate IsLayering(remaining: seq<string>, edges: seq<Edge>, layer: map<string, nat>)
  {
    && (forall x :: x in remaining ==> x in layer)
    && (forall e :: e in edges && e.0 in remaining && e.1 in remaining ==> layer[e.0] < layer[e.1])
  }

  /**
   * When the generator finishes, the generation indices form a layering:
   * every node gets one, and along every edge they strictly increase.
   */
  lemma {:induction false} GenerationsLayer(remaining: seq<string>, edges: seq<Edge>)
    requires !Generate(remaining, edges).cyclic
    ensures var gens := Generate(remaining, edges).generations;
      && (forall x :: x in remaining ==> LayerOf(gens, x).Some?)
      && (forall e :: e in edges && e.0 in remaining && e.1 in remaining ==>
            LayerOf(gens, e.0).value < LayerOf(gens, e.1).value)
    ensures IsLayering(remaining, edges, map x | x in remaining :: LayerOf(Generate(remaining, edges).generations, x).value)
  {
    var gens := Generate(remaining, edges).generations;
    GenerationsDisjoint(remaining, edges);
    forall x | x in remaining ensures LayerOf(gens, x).Some? {
      GenerationsCover(remaining, edges, x);
      var i :| 0 <= i < |gens| && x in gens[i];
      LayerOfIndex(gens, x, i);
    }
    forall e | e in edges && e.0 in remaining && e.1 in remaining
      ensures LayerOf(gens, e.0).value < LayerOf(gens, e.1).value
    {
      GenerationsCover(remaining, edges, e.1);
      var j :| 0 <= j < |gens| && e.1 in gens[j];
      LayerOfIndex(gens, e.1, j);
      GenerationsOrderEdge(remaining, edges, e, j);
      var i :| 0 <= i < j && e.0 in gens[i];
      LayerOfIndex(gens, e.0, i);
    }
  }

  lemma {:induction false} MinimumExists(s: seq<string>, layer: map<string, nat>) returns (m: string)
    requires |s| > 0 && forall x :: x in s ==> x in layer
    ensures m in s && forall x :: x in s ==> layer[m] <= layer[x]
  {
    if |s| == 1 {
      m := s[0];
    } else {
      var init := s[..|s| - 1];
      assert init[0] in s;
      m := MinimumExists(init, layer);
      if layer[s[|s| - 1]] < layer[m] {
        m := s[|s| - 1];
      }
      forall x | x in s ensures layer[m] <= layer[x] {
        if x != s[|s| - 1] {
          assert x in init;
        }
      }
    }
  }

  /**
   * Conversely, if some layering exists the generator never gets stuck: a
   * node of least layer always has in-degree 0.
   */
  lemma {:induction false} LayeringCompletes(remaining: seq<string>, edges: seq<Edge>, layer: map<string, nat>)
    requires IsLayering(remaining, edges, layer)
    ensures !Generate(remaining, edges).cyclic
    decreases |remaining|
  {
    if |remaining| > 0 {
      var m := MinimumExists(remaining, layer);
      var z := Sources(remaining, remaining, edges);
      SourcesMembers(remaining, remaining, edges, m);
      var rest := Without(remaining, z);
      WithoutShrinks(remaining, z, m);
      forall x | x in rest ensures x in remaining {
        WithoutMembers(remaining, z, x);
      }
      assert IsLayering(rest, edges, layer);
      LayeringCompletes(rest, edges, layer);
    }
  }

  /** A closed walk along edges: `path[0] -> path[1] -> ... -> path[0]`. */
  ghost predicate IsCycle(path: seq<string>, edges: seq<Edge>)
  {
    && |path| >= 2
    && path[0] == path[|path| - 1]
    && forall k :: 0 <= k < |path| - 1 ==> (path[k], path[k + 1]) in edges
  }

  lemma {:induction false} LayersRiseAlongPath(path: seq<string>, remaining: seq<string>, edges: seq<Edge>,
                                              layer: map<string, nat>, k: nat)
    requires IsLayering(remaining, edges, layer)
    requires forall x :: x in path ==> x in remaining
    requires forall i :: 0 <= i < |path| - 1 ==> (path[i], path[i + 1]) in edges
    requires 0 < k < |path|
    ensures layer[path[0]] < layer[path[k]]
  {
    assert (path[k - 1], path[k]) in edges && path[k - 1] in path && path[k] in path;
    if k > 1 {
      LayersRiseAlongPath(path, remaining, edges, layer, k - 1);
    }
  }

  /** A graph with a cycle among its nodes makes the generator raise. */
  lemma {:induction false} CycleIsCyclic(path: seq<string>, remaining: seq<string>, edges: seq<Edge>)
    requires IsCycle(path, edges)
    requires forall x :: x in path ==> x in remaining
    ensures Generate(remaining, edges).cyclic
  {
    if !Generate(remaining, edges).cyclic {
      GenerationsLayer(remaining, edges);
      var layer := map x | x in remaining :: LayerOf(Generate(remaining, edges).generations, x).value;
      LayersRiseAlongPath(path, remaining, edges, layer, |path| - 1);
      assert false;
    }
  }

  /** The diamond A -> B, A -> C, B -> D, C -> D. */
  const DiamondEdges: seq<Edge> := [("A", "B"), ("A", "C"), ("B", "D"), ("C", "D")]

  /**
   * The layer of a node is its generation index: in the diamond the node D
   * is in the third generation and gets layer 2, the length of its longest
   * incoming path A -> B -> D.
   */
  lemma {:induction false} DiamondGenerations()
    ensures Generate(["A", "B", "C", "D"], DiamondEdges) == Generated([["A"], ["B", "C"], ["D"]], false)
  {
    DiamondSources();
    DiamondWithout();
    DiamondRest();
  }

  /** Without A, the generations of the diamond are [B, C] and then [D]. */
  lemma {:induction false} DiamondRest()
    ensures Generate(["B", "C", "D"], DiamondEdges) == Generated([["B", "C"], ["D"]], false)
  {
    DiamondRestSources();
    DiamondRestWithout();
    DiamondLast();
  }

  /** D alone is the last generation. */
  lemma {:induction false} DiamondLast()
    ensures Generate(["D"], DiamondEdges) == Generated([["D"]], false)
  {
    assert Sources(["D"], ["D"], DiamondEdges) == ["D"];
    assert Without(["D"], ["D"]) == [];
  }

  /** In the diamond, A alone has in-degree 0. */
  lemma {:induction false} DiamondSources()
    ensures Sources(["A", "B", "C", "D"], ["A", "B", "C", "D"], DiamondEdges) == ["A"]
  {
    var all := ["A", "B", "C", "D"];
    assert all[..3] == ["A", "B", "C"] && ["A", "B", "C"][..2] == ["A", "B"] && ["A", "B"][..1] == ["A"];
    assert !HasLivePredecessor("A", all, DiamondEdges);
    assert HasLivePredecessor("B", all, DiamondEdges) by { assert DiamondEdges[0] == ("A", "B"); }
    assert HasLivePredecessor("C", all, DiamondEdges) by { assert DiamondEdges[1] == ("A", "C"); }
    assert HasLivePredecessor("D", all, DiamondEdges) by { assert DiamondEdges[2] == ("B", "D"); }
    assert Sources(["A"], all, DiamondEdges) == ["A"];
    assert Sources(["A", "B"], all, DiamondEdges) == ["A"];
    assert Sources(["A", "B", "C"], all, DiamondEdges) == ["A"];
  }

  /** Removing A leaves B, C and D. */
  lemma {:induction false} DiamondWithout()
    ensures Without(["A", "B", "C", "D"], ["A"]) == ["B", "C", "D"]
  {
    assert ["A", "B", "C", "D"][..3] == ["A", "B", "C"];
    assert ["A", "B", "C"][..2] == ["A", "B"];
    assert ["A", "B"][..1] == ["A"];
  }

  /** Without A, B and C have in-degree 0. */
  lemma {:induction false} DiamondRestSources()
    ensures Sources(["B", "C", "D"], ["B", "C", "D"], DiamondEdges) == ["B", "C"]
  {
    var rest := ["B", "C", "D"];
    assert rest[..2] == ["B", "C"] && ["B", "C"][..1] == ["B"];
    assert !HasLivePredecessor("B", rest, DiamondEdges);
    assert !HasLivePredecessor("C", rest, DiamondEdges);
    assert HasLivePredecessor("D", rest, DiamondEdges) by { assert DiamondEdges[2] == ("B", "D"); }
    assert Sources(["B"], rest, DiamondEdges) == ["B"];
    assert Sources(["B", "C"], rest, DiamondEdges) == ["B", "C"];
  }

  /** Removing B and C leaves D. */
  lemma {:induction false} DiamondRestWithout()
    ensures Without(["B", "C", "D"], ["B", "C"]) == ["D"]
  {
    assert ["B", "C", "D"][..2] == ["B", "C"];
    assert ["B", "C"][..1] == ["B"];
  }

  /** A self-loop is a cycle: its node never reaches in-degree 0. */
  lemma {:induction false} SelfLoopCyclic()
    ensures Generate(["A"], [("A", "A")]) == Generated([], true)
  {
    assert HasLivePredecessor("A", ["A"], [("A", "A")]) by { assert [("A", "A")][0] == ("A", "A"); }
    assert Sources(["A"], ["A"], [("A", "A")]) == [];
  }
}
