/**
 * `hasCycleUndirected` of the graph notes: a depth-first search that remembers the vertex it
 * came from and reports a cycle when a neighbour other than that one was visited already.
 * The proof follows the search tree the run builds: which vertex discovered which
 * (`parent`) and the order of discovery (`seen`). When every vertex is finished, every edge
 * is an edge of that tree, so no cycle of distinct vertices exists; on a simple graph an edge
 * to an earlier vertex other than the parent closes one along the current path.
 */
module UndirectedCycles {
  import opened Wrappers
  import opened GraphPaths

  /** An undirected graph without self-loops in which no neighbour is listed twice. */
  ghost predicate Simple(g: Graph)
  {
    Undirected(g) && forall v :: v in g ==> v !in g[v] && Distinct(g[v])
  }

  /** A closed walk through at least three distinct vertices, none repeated before the end. */
  ghost predicate SimpleCycle(g: Graph, c: seq<string>)
  {
    |c| >= 4 && c[0] == c[|c| - 1] && Walk(g, c) && Distinct(c[..|c| - 1])
  }

  ghost predicate HasSimpleCycle(g: Graph)
  {
    exists c :: SimpleCycle(g, c)
  }

  /** The edge between `u` and `v` joins a vertex and the one that discovered it. */
  ghost predicate TreeEdge(parent: map<string, string>, u: string, v: string)
  {
    (v in parent && parent[v] == u) || (u in parent && parent[u] == v)
  }

  /** `q` keeps every entry of `p`. */
  ghost predicate Extends<V>(p: map<string, V>, q: map<string, V>)
  {
    forall v :: v in p ==> v in q && q[v] == p[v]
  }

  /**
   * The search tree so far: the visited vertices, each with the time it was discovered
   * (before `clock`), and for each vertex but the roots, the vertex that discovered it
   * earlier.
   */
  ghost predicate Tree(g: Graph, visited: set<string>, time: map<string, nat>, clock: nat, parent: map<string, string>)
  {
    visited <= g.Keys && time.Keys == visited && (forall v :: v in time ==> time[v] < clock) &&
    forall v :: v in parent ==> v in time && parent[v] in time && time[parent[v]] < time[v]
  }

  /**
   * The state of the search inside the vertices of `path`: the search tree, the path as a
   * walk of distinct visited vertices, and every edge at a finished vertex an edge of the
   * tree.
   */
  ghost predicate Exploring(g: Graph, visited: set<string>, time: map<string, nat>, clock: nat,
                            parent: map<string, string>, path: seq<string>)
  {
    Tree(g, visited, time, clock, parent) &&
    Distinct(path) && (forall x :: x in path ==> x in visited) && Walk(g, path) &&
    Settled(g, visited, parent, path)
  }

  /** Every edge at a visited vertex off the path is an edge of the tree. */
  ghost predicate Settled(g: Graph, visited: set<string>, parent: map<string, string>, path: seq<string>)
  {
    forall u, v :: u in visited && u !in path && u in g && v in g[u] ==> TreeEdge(parent, u, v)
  }

  /** The tree after `node` is discovered from `par` (no entry for a root). */
  ghost function Adopt(parent: map<string, string>, node: string, par: Option<string>): map<string, string>
  {
    if par.Some? then parent[node := par.value] else parent
  }

  /**
   * `hasCycleUndirected(graph)`: false only when no cycle of distinct vertices exists; on a
   * simple graph, true exactly when one does.
   */
  method HasCycleUndirected(graph: Graph) returns (found: bool)
    requires Closed(graph)
    ensures !found ==> !HasSimpleCycle(graph)
    ensures found && Simple(graph) ==> HasSimpleCycle(graph)
  {
    var visited: set<string> := {};
    ghost var time: map<string, nat> := map[];
    ghost var clock: nat := 0;
    ghost var parent: map<string, string> := map[];
    var keys := graph.Keys;
    while keys != {}
      invariant Exploring(graph, visited, time, clock, parent, [])
      invariant keys <= graph.Keys && graph.Keys - keys <= visited
      decreases |keys|
    {
      var v :| v in keys;
      if v !in visited {
        var f;
        ghost var c;
        f, visited, time, clock, parent, c := UndirectedDfs(graph, v, None, visited, time, clock, parent, []);
        if f {
          return true;
        }
      }
      keys := keys - {v};
    }
    assert visited == graph.Keys;
    TreeHasNoCycle(graph, time, clock, parent);
    return false;
  }

  /**
   * The inner `dfs(node, parent)` of `hasCycleUndirected`, on a vertex not yet visited: true
   * when the search meets a visited vertex other than the one it came from; otherwise `node`
   * and everything found from it are finished, with `node` a child of `par`.
   */
  method UndirectedDfs(graph: Graph, node: string, par: Option<string>, visited: set<string>,
                       ghost time: map<string, nat>, ghost clock: nat, ghost parent: map<string, string>,
                       ghost path: seq<string>)
    returns (found: bool, visited': set<string>, ghost time': map<string, nat>, ghost clock': nat,
             ghost parent': map<string, string>, ghost cycle: seq<string>)
    requires Closed(graph) && node in graph && node !in visited
    requires Exploring(graph, visited, time, clock, parent, path)
    requires par == if path == [] then None else Some(path[|path| - 1])
    requires path != [] ==> node in graph[path[|path| - 1]]
    ensures found && Simple(graph) ==> SimpleCycle(graph, cycle)
    ensures !found ==> Exploring(graph, visited', time', clock', parent', path)
    ensures !found ==> visited + {node} <= visited' && Extends(time, time') && Extends(parent, parent')
    ensures !found ==> (node in parent' <==> par.Some?) && (par.Some? ==> parent'[node] == par.value)
    ensures !found ==> forall v :: v in parent' && v !in parent ==> v !in visited && (v == node || parent'[v] !in visited)
    decreases |graph.Keys - visited|, 1
  {
    Enter(graph, visited, time, clock, parent, path, node, par);
    found, visited', time', clock', parent', cycle :=
      UndirectedNeighbors(graph, node, par, visited + {node}, time[node := clock], clock + 1,
                          Adopt(parent, node, par), path + [node], visited);
    if !found {
      Leave(graph, visited', time', clock', parent', path, node);
    }
  }

  /**
   * The loop of `dfs(node, parent)` over the neighbours of `node`, entered with `node` at the
   * end of the path and no child yet. Without a cycle, every edge at `node` ends up an edge
   * of the tree, and the new entries of the tree are new vertices, hung below `node` or below
   * other new vertices. `before` is what was visited when `node` was entered.
   */
  method UndirectedNeighbors(graph: Graph, node: string, par: Option<string>, visited: set<string>,
                             ghost time: map<string, nat>, ghost clock: nat, ghost parent: map<string, string>,
                             ghost path: seq<string>, ghost before: set<string>)
    returns (found: bool, visited': set<string>, ghost time': map<string, nat>, ghost clock': nat,
             ghost parent': map<string, string>, ghost cycle: seq<string>)
    requires Closed(graph) && node in graph && path != [] && path[|path| - 1] == node
    requires Exploring(graph, visited, time, clock, parent, path)
    requires par == if |path| == 1 then None else Some(path[|path| - 2])
    requires (node in parent <==> par.Some?) && (par.Some? ==> parent[node] == par.value)
    requires forall v :: v in parent ==> parent[v] != node
    requires before + {node} <= visited && node !in before
    ensures found && Simple(graph) ==> SimpleCycle(graph, cycle)
    ensures !found ==> Exploring(graph, visited', time', clock', parent', path)
    ensures !found ==> visited <= visited' && Extends(time, time') && Extends(parent, parent')
    ensures !found ==> forall x :: x in graph[node] ==> TreeEdge(parent', node, x)
    ensures !found ==> forall v :: v in parent' && v !in parent ==> v !in visited && (parent'[v] == node || parent'[v] !in visited)
    decreases |graph.Keys - before|, 0
  {
    visited', time', clock', parent' := visited, time, clock, parent;
    var neighbors := graph[node];
    var i := 0;
    while i < |neighbors|
      invariant 0 <= i <= |neighbors|
      invariant Exploring(graph, visited', time', clock', parent', path)
      invariant visited <= visited' && Extends(time, time') && Extends(parent, parent')
      invariant (node in parent' <==> par.Some?) && (par.Some? ==> parent'[node] == par.value)
      invariant forall x :: x in neighbors[..i] ==> TreeEdge(parent', node, x)
      invariant forall v :: v in parent' && parent'[v] == node ==> v in neighbors[..i]
      invariant forall v :: v in parent' && v !in parent ==> v !in visited && (parent'[v] == node || parent'[v] !in visited)
    {
      var neighbor := neighbors[i];
      if neighbor !in visited' {
        Fewer(graph.Keys, before, visited', node);
        var f, v2;
        ghost var t2, k2, p2, c;
        f, v2, t2, k2, p2, c := UndirectedDfs(graph, neighbor, Some(node), visited', time', clock', parent', path);
        if f {
          return true, v2, t2, k2, p2, c;
        }
        ChildAdded(parent, parent', p2, node, neighbor, neighbors, i, visited, visited');
        visited', time', clock', parent' := v2, t2, k2, p2;
      } else if par != Some(neighbor) {
        cycle := [];
        if Simple(graph) {
          cycle := BackEdge(graph, visited', parent', path, par, i);
        }
        return true, visited', time', clock', parent', cycle;
      } else {
        ParentSkipped(parent', node, neighbors, i);
      }
      i := i + 1;
    }
    assert neighbors[..i] == neighbors;
    found, cycle := false, [];
  }

  /**
   * After the search from neighbour `i` of `node` (`p` the tree before, `q` after): neighbour
   * `i` hangs below `node` and the loop's facts about the first `i + 1` neighbours hold.
   */
  lemma ChildAdded(parent: map<string, string>, p: map<string, string>, q: map<string, string>,
                   node: string, nb: string, neighbors: seq<string>, i: nat,
                   visited: set<string>, visited': set<string>)
    requires i < |neighbors| && neighbors[i] == nb && node in visited && visited <= visited'
    requires Extends(parent, p) && Extends(p, q) && nb in q && q[nb] == node
    requires forall x :: x in neighbors[..i] ==> TreeEdge(p, node, x)
    requires forall v :: v in p && p[v] == node ==> v in neighbors[..i]
    requires forall v :: v in p && v !in parent ==> v !in visited && (p[v] == node || p[v] !in visited)
    requires forall v :: v in q && v !in p ==> v !in visited' && (v == nb || q[v] !in visited')
    ensures Extends(parent, q)
    ensures forall x :: x in neighbors[..i + 1] ==> TreeEdge(q, node, x)
    ensures forall v :: v in q && q[v] == node ==> v in neighbors[..i + 1]
    ensures forall v :: v in q && v !in parent ==> v !in visited && (q[v] == node || q[v] !in visited)
  {
    assert neighbors[..i + 1] == neighbors[..i] + [nb];
  }

  /** Neighbour `i` of `node` is the vertex that discovered `node`: the loop's facts extend to it. */
  lemma ParentSkipped(parent: map<string, string>, node: string, neighbors: seq<string>, i: nat)
    requires i < |neighbors| && node in parent && parent[node] == neighbors[i]
    requires forall x :: x in neighbors[..i] ==> TreeEdge(parent, node, x)
    requires forall v :: v in parent && parent[v] == node ==> v in neighbors[..i]
    ensures forall x :: x in neighbors[..i + 1] ==> TreeEdge(parent, node, x)
    ensures forall v :: v in parent && parent[v] == node ==> v in neighbors[..i + 1]
  {
    assert neighbors[..i + 1] == neighbors[..i] + [neighbors[i]];
  }

  /**
   * Entering `node`, found from the end of the path: it is discovered now, hangs below `par`
   * and has no child yet.
   */
  lemma Enter(graph: Graph, visited: set<string>, time: map<string, nat>, clock: nat,
              parent: map<string, string>, path: seq<string>, node: string, par: Option<string>)
    requires node in graph && node !in visited
    requires Exploring(graph, visited, time, clock, parent, path)
    requires par == if path == [] then None else Some(path[|path| - 1])
    requires path != [] ==> node in graph[path[|path| - 1]]
    ensures Exploring(graph, visited + {node}, time[node := clock], clock + 1, Adopt(parent, node, par), path + [node])
    ensures Extends(time, time[node := clock]) && Extends(parent, Adopt(parent, node, par))
    ensures var q := Adopt(parent, node, par);
      (node in q <==> par.Some?) && (par.Some? ==> q[node] == par.value) &&
      (forall v :: v in q ==> q[v] != node)
  {
    var q := Adopt(parent, node, par);
    var p := path + [node];
    assert Tree(graph, visited + {node}, time[node := clock], clock + 1, q);
    forall i, j | 0 <= i < j < |p| ensures p[i] != p[j] {
      if j == |path| {
        assert path[i] in path;
      }
    }
    forall k | 0 <= k < |p| - 1 ensures p[k] in graph && p[k + 1] in graph[p[k]] {
      if k < |path| - 1 {
        assert p[k] == path[k] && p[k + 1] == path[k + 1];
      }
    }
    forall u, v | u in visited + {node} && u !in p && u in graph && v in graph[u] ensures TreeEdge(q, u, v) {
      assert u in visited && u !in path;
      assert TreeEdge(parent, u, v);
    }
    assert Settled(graph, visited + {node}, q, p);
  }

  /**
   * Leaving `node` once every edge at it is an edge of the tree: it moves off the end of the
   * path and counts as finished.
   */
  lemma Leave(graph: Graph, visited: set<string>, time: map<string, nat>, clock: nat,
              parent: map<string, string>, path: seq<string>, node: string)
    requires node in graph && Exploring(graph, visited, time, clock, parent, path + [node])
    requires forall x :: x in graph[node] ==> TreeEdge(parent, node, x)
    ensures Exploring(graph, visited, time, clock, parent, path)
  {
    var p := path + [node];
    forall k | 0 <= k < |path| - 1 ensures path[k] in graph && path[k + 1] in graph[path[k]] {
      assert p[k] == path[k] && p[k + 1] == path[k + 1];
    }
    forall i, j | 0 <= i < j < |path| ensures path[i] != path[j] {
      assert p[i] == path[i] && p[j] == path[j];
    }
    forall x | x in path ensures x in visited {
      assert x in p;
    }
    forall u, v | u in visited && u !in path && u in graph && v in graph[u] ensures TreeEdge(parent, u, v) {
      if u != node {
        assert u !in p;
      }
    }
  }

  /**
   * On a simple graph, neighbour `i` of the vertex at the end of the path, already visited
   * and not the vertex the search came from, lies on the path at least two places back, and
   * the path from it closes a cycle of distinct vertices.
   */
  lemma BackEdge(graph: Graph, visited: set<string>, parent: map<string, string>, path: seq<string>,
                 par: Option<string>, i: nat)
    returns (c: seq<string>)
    requires Simple(graph) && path != [] && path[|path| - 1] in graph
    requires Settled(graph, visited, parent, path) && Distinct(path) && Walk(graph, path)
    requires par == if |path| == 1 then None else Some(path[|path| - 2])
    requires var node := path[|path| - 1];
      (node in parent <==> par.Some?) && (par.Some? ==> parent[node] == par.value) &&
      i < |graph[node]| && graph[node][i] in visited && par != Some(graph[node][i]) &&
      forall v :: v in parent && parent[v] == node ==> v in graph[node][..i]
    ensures SimpleCycle(graph, c)
  {
    var n := |path|;
    var node := path[n - 1];
    var nb := graph[node][i];
    assert node !in graph[node] && Distinct(graph[node]);
    assert nb !in graph[node][..i];
    assert node in graph[nb];
    assert !TreeEdge(parent, nb, node);
    assert nb in path;
    var j :| 0 <= j < n && path[j] == nb;
    assert j != n - 1;
    assert j + 3 <= n;
    c := CloseCycle(graph, path, j);
  }

  /**
   * An edge from the end of a walk of distinct vertices back to its place `j`, at least two
   * places before the end, closes a cycle of distinct vertices.
   */
  lemma CloseCycle(graph: Graph, path: seq<string>, j: nat) returns (c: seq<string>)
    requires Walk(graph, path) && Distinct(path) && j + 3 <= |path|
    requires path[|path| - 1] in graph && path[j] in graph[path[|path| - 1]]
    ensures SimpleCycle(graph, c)
  {
    c := path[j..] + [path[j]];
    assert c[..|c| - 1] == path[j..];
    forall k | 0 <= k < |c| - 1 ensures c[k] in graph && c[k + 1] in graph[c[k]] {
      if k < |c| - 2 {
        assert c[k] == path[j + k] && c[k + 1] == path[j + k + 1];
      }
    }
  }

  /** The place among the first `n` vertices of `c` holding the latest discovered one. */
  ghost function Latest(time: map<string, nat>, c: seq<string>, n: nat): (m: nat)
    requires 1 <= n <= |c| && forall k :: 0 <= k < n ==> c[k] in time
    ensures m < n && forall k :: 0 <= k < n ==> time[c[k]] <= time[c[m]]
  {
    if n == 1 then 0
    else
      var m := Latest(time, c, n - 1);
      if time[c[n - 1]] > time[c[m]] then n - 1 else m
  }

  /**
   * When every vertex is visited and finished, every closed walk through three or more
   * vertices repeats one: at the latest discovered vertex of the walk, both edges of the walk
   * lead to the vertex that discovered it.
   */
  lemma TreeHasNoCycle(g: Graph, time: map<string, nat>, clock: nat, parent: map<string, string>)
    requires Exploring(g, g.Keys, time, clock, parent, [])
    ensures !HasSimpleCycle(g)
  {
    forall c | |c| >= 4 && c[0] == c[|c| - 1] && Walk(g, c) ensures !Distinct(c[..|c| - 1]) {
      var k := |c| - 1;
      assert forall t :: 0 <= t < k ==> c[t] in g;
      var m := Latest(time, c, k);
      var prev := if m == 0 then k - 1 else m - 1;
      var next := if m + 1 == k then 0 else m + 1;
      assert c[prev] in g && c[m] in g[c[prev]];
      assert c[m] in g && c[next] in g[c[m]];
      assert TreeEdge(parent, c[prev], c[m]) && TreeEdge(parent, c[m], c[next]);
      assert c[m] in parent && parent[c[m]] == c[prev];
      assert parent[c[m]] == c[next];
      assert c[..k][prev] == c[..k][next] && prev != next;
    }
  }
}
