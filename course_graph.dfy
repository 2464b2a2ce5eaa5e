/**
 * The graph of the course exercises: an adjacency list keyed by vertex name, kept
 * undirected. `addVertex` and `addEdge` report with a boolean whether they changed anything,
 * `removeEdge` filters each end out of the other's list and `removeVertex` filters the vertex
 * out of its neighbours' lists before deleting its own.
 *
 * `removeVertex` as written reads its loop bound from the vertex's own list while the loop
 * may filter that very list (when the vertex is its own neighbour), so with a self-loop it
 * can skip a neighbour. `RemoveVertexAsWritten` is that loop; `RemoveVertex` runs over the
 * list as it was on entry, which removes the vertex everywhere.
 */
module CourseGraph {
  import opened GraphPaths

  /** The adjacency list of the exercises' graph, apart from the class that holds it. */
  type AdjacencyList = GraphPaths.Graph

  /** `list.filter(v => v !== x)`: the list without `x`, the rest in the same order. */
  function Without(xs: seq<string>, x: string): (r: seq<string>)
    ensures forall y :: y in r <==> y in xs && y != x
    ensures x !in xs ==> r == xs
    ensures |r| <= |xs|
  {
    if xs == [] then []
    else if xs[0] == x then Without(xs[1..], x)
    else [xs[0]] + Without(xs[1..], x)
  }

  /** Filtering twice filters once, and filtering keeps the order of what stays. */
  lemma {:induction false} WithoutAgain(xs: seq<string>, x: string)
    ensures Without(Without(xs, x), x) == Without(xs, x)
    ensures Without(xs, x) == xs <==> x !in xs
  {
    if x in xs {
      assert x !in Without(xs, x);
    }
  }

  /** `removeEdge` on the lists: each end filtered out of the other's list. */
  function Disconnect(g: AdjacencyList, v1: string, v2: string): (r: AdjacencyList)
    requires v1 in g && v2 in g
    ensures r.Keys == g.Keys && forall u :: u in g && u != v1 && u != v2 ==> r[u] == g[u]
    ensures v2 !in r[v1] && v1 !in r[v2]
    ensures forall w :: (w in r[v1] ==> w in g[v1]) && (w in r[v2] ==> w in g[v2])
  {
    var h := g[v1 := Without(g[v1], v2)];
    h[v2 := Without(h[v2], v1)]
  }

  /** `addEdge` adds exactly the edge between `v1` and `v2`, in both directions. */
  lemma ConnectEdges(g: AdjacencyList, v1: string, v2: string)
    requires v1 in g && v2 in g
    ensures Connect(g, v1, v2).Keys == g.Keys
    ensures forall u, w :: u in g ==>
      (w in Connect(g, v1, v2)[u] <==> w in g[u] || (u == v1 && w == v2) || (u == v2 && w == v1))
  {
  }

  /**
   * `removeEdge` removes exactly the edge between `v1` and `v2`, in both directions, and
   * keeps a graph undirected.
   */
  lemma DisconnectEdges(g: AdjacencyList, v1: string, v2: string)
    requires v1 in g && v2 in g
    ensures Disconnect(g, v1, v2).Keys == g.Keys
    ensures forall u, w :: u in g ==>
      (w in Disconnect(g, v1, v2)[u] <==> w in g[u] && !(u == v1 && w == v2) && !(u == v2 && w == v1))
    ensures Undirected(g) ==> Undirected(Disconnect(g, v1, v2))
  {
    var d := Disconnect(g, v1, v2);
    forall u, w | u in g ensures w in d[u] <==> w in g[u] && !(u == v1 && w == v2) && !(u == v2 && w == v1) {
      if u == v2 && u != v1 {
        assert d[u] == Without(g[u], v1);
      } else if u == v1 && u == v2 {
        assert d[u] == Without(Without(g[u], v2), v1);
      }
    }
  }

  /** The values of a sequence, as a set. */
  function Members(xs: seq<string>): set<string>
  {
    set x | x in xs
  }

  /** `g` with `v` filtered out of the list of every vertex in `S`. */
  function Filtered(g: AdjacencyList, v: string, S: set<string>): AdjacencyList
  {
    map u | u in g :: if u in S then Without(g[u], v) else g[u]
  }

  /** The intended outcome of `removeVertex(v)`: no vertex `v`, and `v` in no list. */
  function Removed(g: AdjacencyList, v: string): (r: AdjacencyList)
    ensures r.Keys == g.Keys - {v}
    ensures forall u, w :: u in r ==> (w in r[u] <==> w in g[u] && w != v)
  {
    map u | u in g && u != v :: Without(g[u], v)
  }

  /** Removing a vertex and every mention of it keeps a graph undirected. */
  lemma RemovedUndirected(g: AdjacencyList, v: string)
    requires Undirected(g)
    ensures Undirected(Removed(g, v))
  {
  }

  /** Filtering one more vertex's list. */
  lemma FilterOne(g: AdjacencyList, v: string, S: set<string>, name: string)
    requires name in g
    ensures var f := Filtered(g, v, S);
      f[name := Without(f[name], v)] == Filtered(g, v, S + {name})
  {
    WithoutAgain(g[name], v);
  }

  /** One step of the loop of `removeVertex` over the entries of `xs`: entry `i` is filtered. */
  lemma FilterNext(g: AdjacencyList, v: string, xs: seq<string>, i: nat)
    requires i < |xs| && xs[i] in g
    ensures var f := Filtered(g, v, Members(xs[..i]));
      f[xs[i] := Without(f[xs[i]], v)] == Filtered(g, v, Members(xs[..i + 1]))
  {
    FilterOne(g, v, Members(xs[..i]), xs[i]);
    assert xs[..i + 1] == xs[..i] + [xs[i]];
    assert Members(xs[..i + 1]) == Members(xs[..i]) + {xs[i]};
  }

  /** Filtering nothing changes nothing. */
  lemma FilterNone(g: AdjacencyList, v: string, xs: seq<string>)
    ensures Filtered(g, v, Members(xs[..0])) == g
  {
    assert Members(xs[..0]) == {};
  }

  /**
   * In an undirected graph, filtering `v` out of the lists of its neighbours and then
   * deleting `v` is `Removed`: no other list mentions `v`.
   */
  lemma NeighborsSuffice(g: AdjacencyList, v: string)
    requires Undirected(g) && v in g
    ensures Filtered(g, v, Members(g[v])) - {v} == Removed(g, v)
  {
    forall u | u in g && u != v && u !in Members(g[v]) ensures Without(g[u], v) == g[u] {
      assert v !in g[u];
    }
  }

  /**
   * The loop of `removeVertex(v)` as written, from index `i`: while `i` is below the length
   * of the list of `v` as it is now, filter `v` out of the list of the vertex named at `i`.
   */
  function LoopFrom(g: AdjacencyList, v: string, i: nat): (r: AdjacencyList)
    requires Closed(g) && v in g
    ensures r.Keys == g.Keys && forall u :: u in r ==> r[u] == g[u] || r[u] == Without(g[u], v)
    decreases |g[v]| - i
  {
    if i >= |g[v]| then g
    else
      var name := g[v][i];
      var g' := g[name := Without(g[name], v)];
      assert Closed(g') by {
        forall u, w | u in g' && w in g'[u] ensures w in g' {
          assert w in g[u];
        }
      }
      WithoutAgain(g[name], v);
      LoopFrom(g', v, i + 1)
  }

  /** One round of the loop: filtering the vertex named at `i` leaves a closed graph to go on from. */
  lemma LoopStep(g: AdjacencyList, v: string, i: nat)
    requires Closed(g) && v in g && i < |g[v]|
    ensures Closed(g[g[v][i] := Without(g[g[v][i]], v)])
    ensures LoopFrom(g, v, i) == LoopFrom(g[g[v][i] := Without(g[g[v][i]], v)], v, i + 1)
  {
  }

  /** `removeVertex(v)` as written, on the lists. */
  function AsWritten(g: AdjacencyList, v: string): (r: AdjacencyList)
    requires Closed(g) && v in g
    ensures r.Keys == g.Keys - {v} && forall u :: u in r ==> r[u] == g[u] || r[u] == Without(g[u], v)
  {
    LoopFrom(g, v, 0) - {v}
  }

  /**
   * Without a self-loop at `v`, the list of `v` never changes during the loop, the loop
   * visits every neighbour and the code as written does what was intended.
   */
  lemma {:induction false} AsWrittenWithoutSelfLoop(g: AdjacencyList, v: string)
    requires Undirected(g) && v in g && v !in g[v]
    ensures AsWritten(g, v) == Removed(g, v)
  {
    LoopFiltersRest(g, v, 0);
    FilterNone(g, v, g[v]);
    assert LoopFrom(g, v, 0) == Filtered(g, v, Members(g[v]));
    NeighborsSuffice(g, v);
  }

  lemma {:induction false} LoopFiltersRest(g: AdjacencyList, v: string, i: nat)
    requires Closed(g) && v in g && v !in g[v] && i <= |g[v]|
    ensures var f := Filtered(g, v, Members(g[v][..i]));
      Closed(f) && v in f && LoopFrom(f, v, i) == Filtered(g, v, Members(g[v]))
    decreases |g[v]| - i
  {
    var L := g[v];
    var f := Filtered(g, v, Members(L[..i]));
    assert f[v] == L;
    assert Closed(f) by {
      forall u, w | u in f && w in f[u] ensures w in f {
        assert w in g[u];
      }
    }
    if i == |L| {
      assert L[..i] == L;
    } else {
      FilterNext(g, v, L, i);
      LoopFiltersRest(g, v, i + 1);
    }
  }

  /**
   * The failure of the code as written: in the undirected graph `{A: [A, A, B], B: [A]}`
   * (vertices A and B, then `addEdge('A', 'A')` and `addEdge('A', 'B')`), removing A filters
   * the list of A at index 0 down to `[B]`, so the loop stops at index 1 without visiting B,
   * and B keeps A as a neighbour after A is gone.
   */
  lemma AsWrittenSelfLoopCounterexample()
    ensures var g := map["A" := ["A", "A", "B"], "B" := ["A"]];
      Undirected(g) && AsWritten(g, "A") == map["B" := ["A"]] && !Undirected(AsWritten(g, "A")) &&
      Removed(g, "A") == map["B" := []]
  {
    SelfLoopAsWritten();
    SelfLoopRemoved();
    var h := map["B" := ["A"]];
    assert "B" in h && "A" in h["B"] && "A" !in h;
  }

  /** The loop as written on `{A: [A, A, B], B: [A]}`: index 0 filters A's list to `[B]` and the loop ends. */
  lemma SelfLoopAsWritten()
    ensures AsWritten(map["A" := ["A", "A", "B"], "B" := ["A"]], "A") == map["B" := ["A"]]
  {
    var g := map["A" := ["A", "A", "B"], "B" := ["A"]];
    assert Without(["A", "A", "B"], "A") == ["B"];
    var g1 := g["A" := ["B"]];
    assert LoopFrom(g, "A", 0) == LoopFrom(g1, "A", 1);
    assert LoopFrom(g1, "A", 1) == g1;
    assert (g1 - {"A"}).Keys == {"B"};
  }

  /** The intended removal on `{A: [A, A, B], B: [A]}` leaves B with no neighbours. */
  lemma SelfLoopRemoved()
    ensures Removed(map["A" := ["A", "A", "B"], "B" := ["A"]], "A") == map["B" := []]
  {
    assert Without(["A"], "A") == [];
    assert Removed(map["A" := ["A", "A", "B"], "B" := ["A"]], "A").Keys == {"B"};
  }

  class Graph {
    var adjacencyList: AdjacencyList

    /** Every neighbour is a vertex, and every edge is listed at both ends. */
    ghost predicate Valid()
      reads this
    {
      Undirected(adjacencyList)
    }

    /** `new Graph()`: no vertices. */
    constructor()
      ensures Valid() && adjacencyList == map[]
    {
      adjacencyList := map[];
    }

    /**
     * `addVertex(vertex)`: a new vertex gets an empty list and the result is true; an
     * existing one keeps its list and the result is false.
     */
    method AddVertex(vertex: string) returns (added: bool)
      requires Valid()
      modifies this
      ensures Valid()
      ensures added <==> vertex !in old(adjacencyList)
      ensures added ==> adjacencyList == old(adjacencyList)[vertex := []]
      ensures !added ==> adjacencyList == old(adjacencyList)
    {
      if vertex !in adjacencyList {
        adjacencyList := adjacencyList[vertex := []];
        return true;
      }
      return false;
    }

    /**
     * `addEdge(vertex1, vertex2)`: when both are vertices, each is appended to the other's
     * list and the result is true; otherwise nothing changes and the result is false.
     */
    method AddEdge(vertex1: string, vertex2: string) returns (added: bool)
      requires Valid()
      modifies this
      ensures Valid()
      ensures added <==> vertex1 in old(adjacencyList) && vertex2 in old(adjacencyList)
      ensures added ==> adjacencyList == Connect(old(adjacencyList), vertex1, vertex2)
      ensures !added ==> adjacencyList == old(adjacencyList)
    {
      if vertex1 in adjacencyList && vertex2 in adjacencyList {
        ConnectUndirected(adjacencyList, vertex1, vertex2);
        adjacencyList := adjacencyList[vertex1 := adjacencyList[vertex1] + [vertex2]];
        adjacencyList := adjacencyList[vertex2 := adjacencyList[vertex2] + [vertex1]];
        return true;
      }
      return false;
    }

    /**
     * `removeEdge(vertex1, vertex2)`: when both are vertices, each is filtered out of the
     * other's list and the result is true; otherwise nothing changes and the result is false.
     */
    method RemoveEdge(vertex1: string, vertex2: string) returns (removed: bool)
      requires Valid()
      modifies this
      ensures Valid()
      ensures removed <==> vertex1 in old(adjacencyList) && vertex2 in old(adjacencyList)
      ensures removed ==> adjacencyList == Disconnect(old(adjacencyList), vertex1, vertex2)
      ensures !removed ==> adjacencyList == old(adjacencyList)
    {
      if vertex1 in adjacencyList && vertex2 in adjacencyList {
        DisconnectEdges(adjacencyList, vertex1, vertex2);
        adjacencyList := adjacencyList[vertex1 := Without(adjacencyList[vertex1], vertex2)];
        adjacencyList := adjacencyList[vertex2 := Without(adjacencyList[vertex2], vertex1)];
        return true;
      }
      return false;
    }

    /**
     * `removeVertex(vertex)`, reading the neighbours from the list as it was on entry: the
     * vertex is deleted and filtered out of every list, which keeps the graph undirected;
     * an absent vertex changes nothing.
     */
    method RemoveVertex(vertex: string)
      requires Valid()
      modifies this
      ensures Valid()
      ensures vertex in old(adjacencyList) ==> adjacencyList == Removed(old(adjacencyList), vertex)
      ensures vertex !in old(adjacencyList) ==> adjacencyList == old(adjacencyList)
    {
      if vertex in adjacencyList {
        ghost var g := adjacencyList;
        var neighbors := adjacencyList[vertex];
        var i := 0;
        FilterNone(g, vertex, neighbors);
        while i < |neighbors|
          invariant 0 <= i <= |neighbors|
          invariant adjacencyList == Filtered(g, vertex, Members(neighbors[..i]))
        {
          var vertexName := neighbors[i];
          FilterNext(g, vertex, neighbors, i);
          adjacencyList := adjacencyList[vertexName := Without(adjacencyList[vertexName], vertex)];
          i := i + 1;
        }
        assert neighbors[..i] == neighbors;
        adjacencyList := adjacencyList - {vertex};
        NeighborsSuffice(g, vertex);
        RemovedUndirected(g, vertex);
      }
    }

    /**
     * `removeVertex(vertex)` as written: the loop re-reads the length and the entries of the
     * vertex's own list, which the loop itself filters when the vertex is its own neighbour.
     */
    method RemoveVertexAsWritten(vertex: string)
      requires Valid()
      modifies this
      ensures vertex in old(adjacencyList) ==> adjacencyList == AsWritten(old(adjacencyList), vertex)
      ensures vertex !in old(adjacencyList) ==> adjacencyList == old(adjacencyList)
    {
      if vertex in adjacencyList {
        ghost var g := adjacencyList;
        var i := 0;
        while i < |adjacencyList[vertex]|
          invariant Closed(adjacencyList) && vertex in adjacencyList
          invariant LoopFrom(adjacencyList, vertex, i) == LoopFrom(g, vertex, 0)
          decreases |adjacencyList[vertex]| - i
        {
          var vertexName := adjacencyList[vertex][i];
          LoopStep(adjacencyList, vertex, i);
          adjacencyList := adjacencyList[vertexName := Without(adjacencyList[vertexName], vertex)];
          i := i + 1;
        }
        assert LoopFrom(adjacencyList, vertex, i) == adjacencyList;
        adjacencyList := adjacencyList - {vertex};
      }
    }
  }

  /** The `addVertex` driver: adding A then B gives two vertices with empty lists. */
  method AddVertexExample() returns (g: Graph)
    ensures g.adjacencyList == map["A" := [], "B" := []]
  {
    g := new Graph();
    var _ := g.AddVertex("A");
    var _ := g.AddVertex("B");
  }

  /** Test 1 of `removeVertex`: removing A from the edge A–B leaves B with an empty list. */
  method RemoveExistingExample() returns (g: Graph)
    ensures g.adjacencyList == map["B" := []]
  {
    g := new Graph();
    var _ := g.AddVertex("A");
    var _ := g.AddVertex("B");
    assert g.adjacencyList == map["A" := [], "B" := []];
    var _ := g.AddEdge("A", "B");
    assert g.adjacencyList == Connect(map["A" := [], "B" := []], "A", "B");
    assert [] + ["B"] == ["B"] && [] + ["A"] == ["A"];
    assert g.adjacencyList == map["A" := ["B"], "B" := ["A"]];
    g.RemoveVertex("A");
    assert Without(["A"], "A") == [];
  }

  /** Test 2 of `removeVertex`: removing from an empty graph leaves it empty. */
  method RemoveMissingExample() returns (g: Graph)
    ensures g.adjacencyList == map[]
  {
    g := new Graph();
    g.RemoveVertex("C");
  }

  /**
   * Test 3 of `removeVertex`: a vertex whose only edge is a self-loop leaves an empty graph,
   * as written (`h`) and corrected (`g`).
   */
  method RemoveSelfLoopExample() returns (g: Graph, h: Graph)
    ensures g.adjacencyList == map[] && h.adjacencyList == map[]
  {
    g := new Graph();
    var _ := g.AddVertex("A");
    var _ := g.AddEdge("A", "A");
    assert g.adjacencyList == Connect(map["A" := []], "A", "A");
    assert [] + ["A"] == ["A"] && ["A"] + ["A"] == ["A", "A"];
    assert g.adjacencyList == map["A" := ["A", "A"]];
    h := new Graph();
    var _ := h.AddVertex("A");
    var _ := h.AddEdge("A", "A");
    assert h.adjacencyList == Connect(map["A" := []], "A", "A");
    assert h.adjacencyList == map["A" := ["A", "A"]];
    g.RemoveVertex("A");
    h.RemoveVertexAsWritten("A");
    SelfLoopOnly();
  }

  /** The lists of test 3: A with a self-loop, then removed, by both versions of `removeVertex`. */
  lemma SelfLoopOnly()
    ensures Removed(map["A" := ["A", "A"]], "A") == map[]
    ensures Closed(map["A" := ["A", "A"]]) && AsWritten(map["A" := ["A", "A"]], "A") == map[]
  {
    assert Without(["A", "A"], "A") == [];
    assert LoopFrom(map["A" := ["A", "A"]], "A", 0) == LoopFrom(map["A" := []], "A", 1);
  }

  /** Test 4 of `removeVertex`: from the path A–B–C, removing A and then C leaves B alone. */
  method RemoveTwiceExample() returns (g: Graph)
    ensures g.adjacencyList == map["B" := []]
  {
    g := new Graph();
    var _ := g.AddVertex("A");
    var _ := g.AddVertex("B");
    var _ := g.AddVertex("C");
    assert g.adjacencyList == map["A" := [], "B" := [], "C" := []];
    var _ := g.AddEdge("A", "B");
    var _ := g.AddEdge("B", "C");
    PathABC();
    g.RemoveVertex("A");
    g.RemoveVertex("C");
  }

  /** The lists of test 4, built and then emptied. */
  lemma PathABC()
    ensures var ab := Connect(map["A" := [], "B" := [], "C" := []], "A", "B");
      ab == map["A" := ["B"], "B" := ["A"], "C" := []] &&
      Connect(ab, "B", "C") == map["A" := ["B"], "B" := ["A", "C"], "C" := ["B"]]
    ensures Removed(map["A" := ["B"], "B" := ["A", "C"], "C" := ["B"]], "A") == map["B" := ["C"], "C" := ["B"]]
    ensures Removed(map["B" := ["C"], "C" := ["B"]], "C") == map["B" := []]
  {
    PathEdgeAB();
    PathEdgeBC();
    PathRemovals();
  }

  /** The first edge of test 4, A–B, on three vertices with empty lists. */
  lemma PathEdgeAB()
    ensures Connect(map["A" := [], "B" := [], "C" := []], "A", "B") == map["A" := ["B"], "B" := ["A"], "C" := []]
  {
    var r := Connect(map["A" := [], "B" := [], "C" := []], "A", "B");
    assert r["A"] == [] + ["B"] == ["B"] && r["B"] == [] + ["A"] == ["A"] && r["C"] == [];
  }

  /** The second edge of test 4, B–C, after A–B. */
  lemma PathEdgeBC()
    ensures Connect(map["A" := ["B"], "B" := ["A"], "C" := []], "B", "C") == map["A" := ["B"], "B" := ["A", "C"], "C" := ["B"]]
  {
    var r := Connect(map["A" := ["B"], "B" := ["A"], "C" := []], "B", "C");
    assert r["B"] == ["A"] + ["C"] == ["A", "C"] && r["C"] == [] + ["B"] == ["B"] && r["A"] == ["B"];
  }

  /** The two removals of test 4 on the lists of the path A–B–C. */
  lemma PathRemovals()
    ensures Removed(map["A" := ["B"], "B" := ["A", "C"], "C" := ["B"]], "A") == map["B" := ["C"], "C" := ["B"]]
    ensures Removed(map["B" := ["C"], "C" := ["B"]], "C") == map["B" := []]
  {
    assert Without(["A", "C"], "A") == ["C"] && Without(["B"], "A") == ["B"];
    assert Without(["C"], "C") == [];
  }

  /** Test 5 of `removeVertex`: removing A from the edges A–B and A–C leaves B and C with empty lists. */
  method RemoveHubExample() returns (g: Graph)
    ensures g.adjacencyList == map["B" := [], "C" := []]
  {
    g := new Graph();
    var _ := g.AddVertex("A");
    var _ := g.AddVertex("B");
    var _ := g.AddVertex("C");
    assert g.adjacencyList == map["A" := [], "B" := [], "C" := []];
    var _ := g.AddEdge("A", "B");
    var _ := g.AddEdge("A", "C");
    HubABC();
    g.RemoveVertex("A");
  }

  /** The lists of test 5, built and then emptied. */
  lemma HubABC()
    ensures var ab := Connect(map["A" := [], "B" := [], "C" := []], "A", "B");
      ab == map["A" := ["B"], "B" := ["A"], "C" := []] &&
      Connect(ab, "A", "C") == map["A" := ["B", "C"], "B" := ["A"], "C" := ["A"]] &&
      Removed(map["A" := ["B", "C"], "B" := ["A"], "C" := ["A"]], "A") == map["B" := [], "C" := []]
  {
    PathEdgeAB();
    HubEdgeAC();
    assert Without(["A"], "A") == [];
  }

  /** The second edge of test 5, A–C, after A–B. */
  lemma HubEdgeAC()
    ensures Connect(map["A" := ["B"], "B" := ["A"], "C" := []], "A", "C") == map["A" := ["B", "C"], "B" := ["A"], "C" := ["A"]]
  {
    var r := Connect(map["A" := ["B"], "B" := ["A"], "C" := []], "A", "C");
    assert r["A"] == ["B"] + ["C"] == ["B", "C"] && r["C"] == [] + ["A"] == ["A"] && r["B"] == ["A"];
  }

  /**
   * The graph of `AsWrittenSelfLoopCounterexample` built with the class: the code as
   * written (`g`) leaves B pointing at the removed A, the corrected one (`h`) leaves B with
   * no neighbour.
   */
  method SelfLoopNeighborExample() returns (g: Graph, h: Graph)
    ensures g.adjacencyList == map["B" := ["A"]] && !g.Valid()
    ensures h.adjacencyList == map["B" := []] && h.Valid()
  {
    g := SelfLoopGraph();
    h := SelfLoopGraph();
    AsWrittenSelfLoopCounterexample();
    g.RemoveVertexAsWritten("A");
    h.RemoveVertex("A");
  }

  /** Vertices A and B, then `addEdge('A', 'A')` and `addEdge('A', 'B')`. */
  method SelfLoopGraph() returns (g: Graph)
    ensures fresh(g) && g.Valid() && g.adjacencyList == map["A" := ["A", "A", "B"], "B" := ["A"]]
  {
    g := new Graph();
    var _ := g.AddVertex("A");
    var _ := g.AddVertex("B");
    assert g.adjacencyList == map["A" := [], "B" := []];
    var _ := g.AddEdge("A", "A");
    var _ := g.AddEdge("A", "B");
    SelfLoopLists();
  }

  /** The lists built by `addEdge('A', 'A')` and then `addEdge('A', 'B')`. */
  lemma SelfLoopLists()
    ensures var aa := Connect(map["A" := [], "B" := []], "A", "A");
      aa == map["A" := ["A", "A"], "B" := []] &&
      Connect(aa, "A", "B") == map["A" := ["A", "A", "B"], "B" := ["A"]]
  {
    assert [] + ["A"] == ["A"] && ["A"] + ["A"] == ["A", "A"] && ["A", "A"] + ["B"] == ["A", "A", "B"];
  }
}
