/**
 * The recursive depth-first searches of the graph notes on a directed graph:
 * `hasCycleDirected` and `topologicalSort`. Each runs its inner `dfs` from every vertex in
 * the graph's key order, which the model leaves unspecified (`:|`). Their proofs follow the
 * path of vertices the search is inside of and the order in which vertices are finished.
 */
module GraphCycles {
  import opened GraphPaths
  import Nodes

  /** The first position of `x` in `xs`. */
  ghost function Index(xs: seq<string>, x: string): (i: nat)
    requires x in xs
    ensures i < |xs| && xs[i] == x && x !in xs[..i]
  {
    if xs[0] == x then 0 else 1 + Index(xs[1..], x)
  }

  /** The first position of a value is at most any position holding it. */
  lemma {:induction false} IndexAtMost(xs: seq<string>, x: string, i: nat)
    requires i < |xs| && xs[i] == x
    ensures Index(xs, x) <= i
  {
    if xs[0] != x {
      IndexAtMost(xs[1..], x, i - 1);
    }
  }

  /** A value in the first `p` places of `xs` first occurs before place `p`. */
  lemma IndexBelow(xs: seq<string>, x: string, p: nat)
    requires p <= |xs| && x in xs[..p]
    ensures Index(xs, x) < p
  {
    var i :| 0 <= i < p && xs[..p][i] == x;
    IndexAtMost(xs, x, i);
  }

  /** Every neighbour of a finished vertex was finished before it. */
  ghost predicate Finished(g: Graph, fin: seq<string>)
  {
    forall i, v :: 0 <= i < |fin| && fin[i] in g && v in g[fin[i]] ==> v in fin[..i]
  }

  /**
   * The state of a depth-first search: the visited vertices are those on the current
   * `path` (entered, not yet finished) and those in `fin` (finished), each once; the path is
   * a walk.
   */
  ghost predicate Searching(g: Graph, visited: set<string>, path: seq<string>, fin: seq<string>)
  {
    visited <= g.Keys &&
    (forall x :: x in visited <==> x in path || x in fin) &&
    Distinct(path) && Distinct(fin) && (forall x :: x in path ==> x !in fin) &&
    Walk(g, path)
  }

  /** An edge from the end of the current path back onto it closes a cycle. */
  lemma PathCycle(g: Graph, path: seq<string>, node: string) returns (c: seq<string>)
    requires Walk(g, path) && path != [] && path[|path| - 1] in g && node in g[path[|path| - 1]] && node in path
    ensures Cycle(g, c) && HasCycle(g)
  {
    var i :| 0 <= i < |path| && path[i] == node;
    c := path[i..] + [node];
    assert Walk(g, c) by {
      forall k | 0 <= k < |c| - 1 ensures c[k] in g && c[k + 1] in g[c[k]] {
        if k < |c| - 2 {
          assert c[k] == path[i + k] && c[k + 1] == path[i + k + 1];
        }
      }
    }
    assert Cycle(g, c);
  }

  /** Along a walk from a finished vertex, each later vertex was finished earlier still. */
  lemma {:induction false} Descends(g: Graph, fin: seq<string>, c: seq<string>, k: nat)
    requires Finished(g, fin) && Walk(g, c) && 0 < k < |c| && c[0] in fin
    ensures c[k] in fin && Index(fin, c[k]) < Index(fin, c[0])
  {
    var u := c[k - 1];
    if k > 1 {
      Descends(g, fin, c, k - 1);
    }
    var p := Index(fin, u);
    assert c[k] in fin[..p];
    IndexBelow(fin, c[k], p);
  }

  /** A graph whose every vertex is finished, each after all its neighbours, has no cycle. */
  lemma FinishedAcyclic(g: Graph, fin: seq<string>)
    requires Finished(g, fin) && forall x :: x in g ==> x in fin
    ensures !HasCycle(g)
  {
    forall c | |c| >= 2 && Walk(g, c) ensures c[|c| - 1] != c[0] {
      Descends(g, fin, c, |c| - 1);
    }
  }

  /**
   * `hasCycleDirected(graph)`: true exactly when the graph has a cycle along its edge
   * directions.
   */
  method HasCycleDirected(graph: Graph) returns (found: bool)
    requires Closed(graph)
    ensures found <==> HasCycle(graph)
  {
    var visited: set<string> := {};
    ghost var fin: seq<string> := [];
    var keys := graph.Keys;
    while keys != {}
      invariant Searching(graph, visited, [], fin) && Finished(graph, fin)
      invariant keys <= graph.Keys && graph.Keys - keys <= visited
      decreases |keys|
    {
      var v :| v in keys;
      var f;
      ghost var c;
      f, visited, fin, c := DirectedDfs(graph, v, visited, {}, [], fin);
      if f {
        return true;
      }
      keys := keys - {v};
    }
    FinishedAcyclic(graph, fin);
    return false;
  }

  /**
   * The inner `dfs(node)` of `hasCycleDirected`, with `recStack` holding the vertices of the
   * current `path`: true when it meets a vertex of the path again, which closes a cycle;
   * otherwise `node` and everything reachable from it end up finished.
   */
  method DirectedDfs(graph: Graph, node: string, visited: set<string>, recStack: set<string>,
                     ghost path: seq<string>, ghost fin: seq<string>)
    returns (found: bool, visited': set<string>, ghost fin': seq<string>, ghost cycle: seq<string>)
    requires Closed(graph) && node in graph
    requires Searching(graph, visited, path, fin) && Finished(graph, fin)
    requires forall x :: x in recStack <==> x in path
    requires path != [] ==> node in graph[path[|path| - 1]]
    ensures found ==> Cycle(graph, cycle)
    ensures !found ==> Searching(graph, visited', path, fin') && Finished(graph, fin') && node in fin'
    ensures !found ==> visited <= visited' && fin <= fin'
    decreases |graph.Keys - visited|, 1
  {
    if node in recStack {
      cycle := PathCycle(graph, path, node);
      return true, visited, fin, cycle;
    }
    if node in visited {
      return false, visited, fin, [];
    }
    var inPath := recStack + {node};
    found, visited', fin', cycle := NeighborsDfs(graph, node, visited + {node}, inPath, path + [node], fin, visited);
    if !found {
      FinishedGrows(graph, fin', node);
      fin' := Finish(graph, visited', path, fin', node);
    }
  }

  /**
   * The loop of `dfs(node)` in `hasCycleDirected` over the neighbours of `node`, entered
   * with `node` at the end of the path: stops at the first search that meets a cycle;
   * otherwise every neighbour ends up finished. `before` is what was visited when `node`
   * was entered.
   */
  method NeighborsDfs(graph: Graph, node: string, visited: set<string>, recStack: set<string>,
                      ghost path: seq<string>, ghost fin: seq<string>, ghost before: set<string>)
    returns (found: bool, visited': set<string>, ghost fin': seq<string>, ghost cycle: seq<string>)
    requires Closed(graph) && node in graph && path != [] && path[|path| - 1] == node
    requires Searching(graph, visited, path, fin) && Finished(graph, fin)
    requires forall x :: x in recStack <==> x in path
    requires before + {node} <= visited && node !in before
    ensures found ==> Cycle(graph, cycle)
    ensures !found ==> Searching(graph, visited', path, fin') && Finished(graph, fin')
    ensures !found ==> visited <= visited' && fin <= fin' && forall v :: v in graph[node] ==> v in fin'
    decreases |graph.Keys - before|, 0
  {
    visited', fin' := visited, fin;
    var neighbors := graph[node];
    var i := 0;
    while i < |neighbors|
      invariant 0 <= i <= |neighbors|
      invariant Searching(graph, visited', path, fin') && Finished(graph, fin')
      invariant visited <= visited' && fin <= fin'
      invariant forall x :: x in neighbors[..i] ==> x in fin'
    {
      Fewer(graph.Keys, before, visited', node);
      var f;
      ghost var fin'', c;
      f, visited', fin'', c := DirectedDfs(graph, neighbors[i], visited', recStack, path, fin');
      if f {
        return true, visited', fin'', c;
      }
      PrefixKeeps(fin', fin'', neighbors, i);
      fin' := fin'';
      i := i + 1;
    }
    assert neighbors[..i] == neighbors;
    found, cycle := false, [];
  }

  /**
   * One more neighbour finished: the first `i` neighbours were finished in `a`, which `b`
   * extends, and neighbour `i` is finished in `b`.
   */
  lemma PrefixKeeps(a: seq<string>, b: seq<string>, xs: seq<string>, i: nat)
    requires a <= b && i < |xs| && xs[i] in b && forall x :: x in xs[..i] ==> x in a
    ensures forall x :: x in xs[..i + 1] ==> x in b
  {
    assert xs[..i + 1] == xs[..i] + [xs[i]];
    forall x | x in xs[..i] ensures x in b {
      var k :| 0 <= k < |a| && a[k] == x;
      assert b[k] == x;
    }
  }

  /** Finishing a vertex after all its neighbours keeps every neighbour finished first. */
  lemma FinishedGrows(graph: Graph, fin: seq<string>, node: string)
    requires node in graph && Finished(graph, fin) && forall v :: v in graph[node] ==> v in fin
    ensures Finished(graph, fin + [node])
  {
    var fin' := fin + [node];
    forall i, v | 0 <= i < |fin'| && fin'[i] in graph && v in graph[fin'[i]] ensures v in fin'[..i] {
      if i < |fin| {
        assert fin'[..i] == fin[..i];
      } else {
        assert fin'[..i] == fin;
      }
    }
  }

  /**
   * Leaving `node`: it moves from the end of the path
   * to the end of the finished vertices.
   */
  lemma Finish(graph: Graph, visited: set<string>, path: seq<string>, fin: seq<string>, node: string) returns (fin': seq<string>)
    requires node in graph && Searching(graph, visited, path + [node], fin)
    ensures fin' == fin + [node]
    ensures Searching(graph, visited, path, fin') && fin <= fin'
  {
    fin' := fin + [node];
    assert fin'[..|fin|] == fin;
    assert path + [node] == path + [node];
    assert Walk(graph, path) by {
      forall k | 0 <= k < |path| - 1 ensures path[k] in graph && path[k + 1] in graph[path[k]] {
        assert (path + [node])[k] == path[k] && (path + [node])[k + 1] == path[k + 1];
      }
    }
    forall i, j | 0 <= i < j < |fin'| ensures fin'[i] != fin'[j] {
      if j == |fin| {
        assert fin[i] in fin;
        assert node in path + [node];
      }
    }
    forall i, j | 0 <= i < j < |path| ensures path[i] != path[j] {
      assert (path + [node])[i] == path[i] && (path + [node])[j] == path[j];
    }
    forall x | x in path ensures x !in fin' {
      assert x in path + [node];
      var k :| 0 <= k < |path| && path[k] == x;
      assert (path + [node])[k] == x && (path + [node])[|path|] == node;
    }
  }

  /**
   * `topologicalSort(graph)`: every vertex once; when the graph has no cycle, every edge
   * leads from an earlier vertex to a later one.
   */
  method TopologicalSort(graph: Graph) returns (order: seq<string>)
    requires Closed(graph)
    ensures Distinct(order) && forall x :: x in order <==> x in graph
    ensures !HasCycle(graph) ==>
      forall i, j :: 0 <= i < |order| && 0 <= j < |order| && order[j] in graph[order[i]] ==> i < j
  {
    var visited: set<string> := {};
    var stack: seq<string> := [];
    var keys := graph.Keys;
    while keys != {}
      invariant Searching(graph, visited, [], stack) && (HasCycle(graph) || Finished(graph, stack))
      invariant keys <= graph.Keys && graph.Keys - keys <= visited
      decreases |keys|
    {
      var v :| v in keys;
      if v !in visited {
        visited, stack := TopoDfs(graph, v, visited, [], stack);
      }
      keys := keys - {v};
    }
    order := Nodes.Reversed(stack);
    ReversedOrder(graph, stack);
  }

  /** Read back to front, a finish order puts every vertex before its neighbours. */
  lemma ReversedOrder(graph: Graph, fin: seq<string>)
    requires Distinct(fin)
    ensures var r := Nodes.Reversed(fin);
      Distinct(r) && (forall x :: x in r <==> x in fin) &&
      (Finished(graph, fin) ==>
        forall i, j :: 0 <= i < |r| && 0 <= j < |r| && r[i] in graph && r[j] in graph[r[i]] ==> i < j)
  {
    var r := Nodes.Reversed(fin);
    var n := |fin|;
    forall x | x in fin ensures x in r {
      var k :| 0 <= k < n && fin[k] == x;
      assert r[n - 1 - k] == x;
    }
    if Finished(graph, fin) {
      forall i, j | 0 <= i < |r| && 0 <= j < |r| && r[i] in graph && r[j] in graph[r[i]] ensures i < j {
        var p, q := n - 1 - i, n - 1 - j;
        assert fin[p] == r[i] && fin[q] == r[j];
        var k :| 0 <= k < p && fin[..p][k] == r[j];
        assert fin[k] == fin[q];
      }
    }
  }

  /**
   * The inner `dfs(node)` of `topologicalSort`, on a vertex not yet visited: marks it,
   * searches each neighbour not yet visited, then pushes `node` on `stack`. Unless the graph
   * has a cycle, every neighbour of a pushed vertex was pushed before it.
   */
  method TopoDfs(graph: Graph, node: string, visited: set<string>, ghost path: seq<string>, stack: seq<string>)
    returns (visited': set<string>, stack': seq<string>)
    requires Closed(graph) && node in graph && node !in visited
    requires Searching(graph, visited, path, stack) && (HasCycle(graph) || Finished(graph, stack))
    requires path != [] ==> node in graph[path[|path| - 1]]
    ensures Searching(graph, visited', path, stack') && (HasCycle(graph) || Finished(graph, stack'))
    ensures visited <= visited' && stack <= stack' && node in stack'
    decreases |graph.Keys - visited|, 1
  {
    visited', stack' := TopoNeighbors(graph, node, visited + {node}, path + [node], stack, visited);
    if !HasCycle(graph) {
      FinishedGrows(graph, stack', node);
    }
    var _ := Finish(graph, visited', path, stack', node);
    stack' := stack' + [node];
  }

  /**
   * The loop of `dfs(node)` in `topologicalSort` over the neighbours of `node`, entered
   * with `node` at the end of the path. Unless the graph has a cycle, every neighbour ends
   * up pushed. `before` is what was visited when `node` was entered.
   */
  method TopoNeighbors(graph: Graph, node: string, visited: set<string>, ghost path: seq<string>, stack: seq<string>,
                       ghost before: set<string>)
    returns (visited': set<string>, stack': seq<string>)
    requires Closed(graph) && node in graph && path != [] && path[|path| - 1] == node
    requires Searching(graph, visited, path, stack) && (HasCycle(graph) || Finished(graph, stack))
    requires before + {node} <= visited && node !in before
    ensures Searching(graph, visited', path, stack') && (HasCycle(graph) || Finished(graph, stack'))
    ensures visited <= visited' && stack <= stack'
    ensures HasCycle(graph) || forall v :: v in graph[node] ==> v in stack'
    decreases |graph.Keys - before|, 0
  {
    visited', stack' := visited, stack;
    var neighbors := graph[node];
    var i := 0;
    while i < |neighbors|
      invariant 0 <= i <= |neighbors|
      invariant Searching(graph, visited', path, stack') && (HasCycle(graph) || Finished(graph, stack'))
      invariant visited <= visited' && stack <= stack'
      invariant HasCycle(graph) || forall x :: x in neighbors[..i] ==> x in stack'
    {
      var neighbor := neighbors[i];
      ghost var old' := stack';
      if neighbor !in visited' {
        Fewer(graph.Keys, before, visited', node);
        visited', stack' := TopoDfs(graph, neighbor, visited', path, stack');
      } else if neighbor in path {
        var _ := PathCycle(graph, path, neighbor);
      }
      if !HasCycle(graph) {
        PrefixKeeps(old', stack', neighbors, i);
      }
      i := i + 1;
    }
    assert neighbors[..i] == neighbors;
  }
}
