/**
 * The adjacency-list graph of the graph notes and its traversals. `bfs` and `dfsIterative`
 * log the vertices they visit; here they return them in visiting order. The traversals take
 * the graph as a plain adjacency list, as the notes do.
 */
module GraphNotes {
  import opened GraphPaths

  /** `Graph`: `adj` maps each vertex to its neighbours; every edge is added at both ends. */
  class Graph {
    var adj: GraphPaths.Graph

    ghost predicate Valid()
      reads this
    {
      Undirected(adj)
    }

    /** `new Graph()`: no vertices. */
    constructor()
      ensures Valid() && adj == map[]
    {
      adj := map[];
    }

    /** `addVertex(v)`: a new vertex gets an empty list; an existing list is never replaced. */
    method AddVertex(v: string)
      requires Valid()
      modifies this
      ensures Valid() && adj.Keys == old(adj).Keys + {v}
      ensures v in old(adj) ==> adj == old(adj)
      ensures v !in old(adj) ==> adj == old(adj)[v := []]
    {
      if v !in adj {
        adj := adj[v := []];
      }
    }

    /**
     * `addEdge(v1, v2)`: adds whichever end is missing, then lists each end among the other's
     * neighbours (a loop `v1 == v2` is listed twice in its own list).
     */
    method AddEdge(v1: string, v2: string)
      requires Valid()
      modifies this
      ensures Valid() && adj.Keys == old(adj).Keys + {v1, v2}
      ensures v1 != v2 ==> adj[v1] == Old(old(adj), v1) + [v2] && adj[v2] == Old(old(adj), v2) + [v1]
      ensures v1 == v2 ==> adj[v1] == Old(old(adj), v1) + [v1, v1]
      ensures forall u :: u in old(adj) && u != v1 && u != v2 ==> adj[u] == old(adj)[u]
    {
      AddVertex(v1);
      AddVertex(v2);
      ConnectUndirected(adj, v1, v2);
      adj := adj[v1 := adj[v1] + [v2]];
      adj := adj[v2 := adj[v2] + [v1]];
    }
  }

  /** The list of `v` in `g`, empty when `v` is not a vertex yet. */
  function Old(g: GraphPaths.Graph, v: string): seq<string>
  {
    if v in g then g[v] else []
  }

  /**
   * `bfs(graph, start)`: visits `start` first and then every vertex reachable from it, each
   * exactly once; nothing else is visited.
   */
  method Bfs(graph: GraphPaths.Graph, start: string) returns (order: seq<string>)
    requires Closed(graph) && start in graph
    ensures order != [] && order[0] == start && Distinct(order)
    ensures forall x :: x in order <==> Reachable(graph, start, x)
  {
    var queue := [start];
    var visited := {start};
    ghost var done: set<string> := {};
    order := [];
    ReachableSelf(graph, start);
    while queue != []
      invariant BfsInvariant(graph, start, order, queue, visited)
      invariant forall x :: x in done <==> x in order
      decreases |graph.Keys - done|
    {
      var node := queue[0];
      Shrinks(graph.Keys, done, node);
      var rest := queue[1..];
      var visited', queue' := Discover(graph, node, visited, rest);
      BfsStep(graph, start, order, queue, visited, rest, visited', queue');
      order := order + [node];
      done := done + {node};
      visited, queue := visited', queue';
    }
    ShutIsReachable(graph, start, visited);
  }

  /**
   * What holds each time `bfs` tests its queue: the visited vertices are those logged and
   * those queued, each once; all are reachable; and every neighbour of a logged vertex has
   * been visited.
   */
  ghost predicate BfsInvariant(graph: GraphPaths.Graph, start: string, order: seq<string>, queue: seq<string>, visited: set<string>)
  {
    visited <= graph.Keys &&
    (forall x :: x in visited <==> x in order || x in queue) &&
    Distinct(order) && Distinct(queue) && (forall x :: x in order ==> x !in queue) &&
    (order == [] ==> queue == [start]) &&
    (order != [] ==> order[0] == start) &&
    (forall x :: x in visited ==> Reachable(graph, start, x)) &&
    (forall u, v :: u in order && u in graph && v in graph[u] ==> v in visited)
  }

  /** One round of `bfs`: logging the front of the queue and queueing its new neighbours keeps the invariant. */
  lemma BfsStep(graph: GraphPaths.Graph, start: string, order: seq<string>, queue: seq<string>, visited: set<string>,
                rest: seq<string>, visited': set<string>, queue': seq<string>)
    requires Closed(graph) && BfsInvariant(graph, start, order, queue, visited) && queue != [] && rest == queue[1..]
    requires forall x :: x in visited' <==> x in visited || x in graph[queue[0]]
    requires |queue'| >= |rest| && queue'[..|rest|] == rest
    requires forall x :: x in queue'[|rest|..] <==> x in graph[queue[0]] && x !in visited
    requires Distinct(queue'[|rest|..])
    ensures BfsInvariant(graph, start, order + [queue[0]], queue', visited')
  {
    var node := queue[0];
    var n := |queue| - 1;
    forall i, j | 0 <= i < j < |order + [node]| ensures (order + [node])[i] != (order + [node])[j] {
      if j == |order| {
        assert order[i] in order;
      }
    }
    forall x | x in visited' ensures Reachable(graph, start, x) {
      if x !in visited {
        ReachableStep(graph, start, node, x);
      }
    }
    forall x | x in queue' ensures x in queue[1..] || x in queue'[n..] {
      var i :| 0 <= i < |queue'| && queue'[i] == x;
      if i < n {
        assert queue'[..n][i] == x;
      } else {
        assert queue'[n..][i - n] == x;
      }
    }
    forall x | x in queue[1..] || x in queue'[n..] ensures x in queue' {
      if x in queue[1..] {
        var i :| 0 <= i < n && queue[1..][i] == x;
        assert queue'[..n][i] == x;
      } else {
        var i :| 0 <= i < |queue'| - n && queue'[n..][i] == x;
      }
    }
    forall i, j | 0 <= i < j < |queue'| ensures queue'[i] != queue'[j] {
      if j < n {
        assert queue'[i] == queue[1..][i] && queue'[j] == queue[1..][j];
      } else if i < n {
        assert queue'[i] == queue[i + 1] && queue[i + 1] in queue;
        assert queue'[j] == queue'[n..][j - n];
      } else {
        assert queue'[i] == queue'[n..][i - n] && queue'[j] == queue'[n..][j - n];
      }
    }
  }

  /**
   * The inner loop of `bfs`: each neighbour of `node` not yet visited is marked visited and
   * queued, in list order and once.
   */
  method Discover(graph: GraphPaths.Graph, node: string, visited: set<string>, queue: seq<string>)
    returns (visited': set<string>, queue': seq<string>)
    requires node in graph
    ensures forall x :: x in visited' <==> x in visited || x in graph[node]
    ensures |queue'| >= |queue| && queue'[..|queue|] == queue
    ensures forall x :: x in queue'[|queue|..] <==> x in graph[node] && x !in visited
    ensures Distinct(queue'[|queue|..])
  {
    visited', queue' := visited, queue;
    var neighbors := graph[node];
    var i := 0;
    while i < |neighbors|
      invariant 0 <= i <= |neighbors|
      invariant forall x :: x in visited' <==> x in visited || x in neighbors[..i]
      invariant |queue'| >= |queue| && queue'[..|queue|] == queue
      invariant forall x :: x in queue'[|queue|..] <==> x in neighbors[..i] && x !in visited
      invariant Distinct(queue'[|queue|..])
    {
      var neighbor := neighbors[i];
      assert neighbors[..i + 1] == neighbors[..i] + [neighbor];
      if neighbor !in visited' {
        visited' := visited' + {neighbor};
        assert (queue' + [neighbor])[|queue|..] == queue'[|queue|..] + [neighbor];
        queue' := queue' + [neighbor];
      }
      i := i + 1;
    }
    assert neighbors[..i] == neighbors;
  }

  /**
   * `dfsIterative(graph, start)`: pops a vertex, and when it is not visited yet logs it and
   * pushes all its neighbours. Visits `start` first and then every vertex reachable from it,
   * each exactly once; nothing else is visited.
   */
  method DfsIterative(graph: GraphPaths.Graph, start: string) returns (order: seq<string>)
    requires Closed(graph) && start in graph
    ensures order != [] && order[0] == start && Distinct(order)
    ensures forall x :: x in order <==> Reachable(graph, start, x)
  {
    var stack := [start];
    var visited: set<string> := {};
    order := [];
    ReachableSelf(graph, start);
    while stack != []
      invariant DfsInvariant(graph, start, order, stack, visited)
      decreases |graph.Keys - visited|, |stack|
    {
      ghost var popped := stack;
      var node := stack[|stack| - 1];
      stack := stack[..|stack| - 1];
      if node in visited {
        DfsSkip(graph, start, order, popped, visited);
      } else {
        Shrinks(graph.Keys, visited, node);
        DfsStep(graph, start, order, popped, visited);
        stack := PushAll(stack, graph[node]);
        order := order + [node];
        visited := visited + {node};
      }
    }
    DfsDone(graph, start, order, visited);
  }

  /**
   * What holds each time `dfsIterative` tests its stack: the visited vertices are those
   * logged, each once; logged and stacked vertices are reachable; and every neighbour of a
   * logged vertex is visited or still on the stack.
   */
  ghost predicate DfsInvariant(graph: GraphPaths.Graph, start: string, order: seq<string>, stack: seq<string>, visited: set<string>)
  {
    visited <= graph.Keys && (forall x :: x in stack ==> x in graph) &&
    (forall x :: x in visited <==> x in order) && Distinct(order) &&
    (order == [] ==> stack == [start]) &&
    (order != [] ==> order[0] == start) &&
    (forall x :: x in visited ==> Reachable(graph, start, x)) &&
    (forall x :: x in stack ==> Reachable(graph, start, x)) &&
    (forall u, v :: u in order && u in graph && v in graph[u] ==> v in visited || v in stack)
  }

  /** The inner loop of `dfsIterative`: pushes the neighbours in list order. */
  method PushAll(stack: seq<string>, neighbors: seq<string>) returns (stack': seq<string>)
    ensures stack' == stack + neighbors
  {
    stack' := stack;
    for k := 0 to |neighbors|
      invariant stack' == stack + neighbors[..k]
    {
      stack' := stack' + [neighbors[k]];
    }
    assert neighbors[..|neighbors|] == neighbors;
  }

  /** Popping an already visited vertex keeps the invariant. */
  lemma DfsSkip(graph: GraphPaths.Graph, start: string, order: seq<string>, popped: seq<string>, visited: set<string>)
    requires DfsInvariant(graph, start, order, popped, visited) && popped != [] && popped[|popped| - 1] in visited
    ensures DfsInvariant(graph, start, order, popped[..|popped| - 1], visited)
  {
    var stack, node := popped[..|popped| - 1], popped[|popped| - 1];
    assert popped == stack + [node];
    assert order != [];
    forall u, v | u in order && u in graph && v in graph[u] ensures v in visited || v in stack {
      assert v in visited || v in stack + [node];
    }
  }

  /** With the stack empty, the logged vertices are exactly the reachable ones. */
  lemma DfsDone(graph: GraphPaths.Graph, start: string, order: seq<string>, visited: set<string>)
    requires DfsInvariant(graph, start, order, [], visited)
    ensures order != [] && order[0] == start && Distinct(order)
    ensures forall x :: x in order <==> Reachable(graph, start, x)
  {
    assert start in visited;
    ShutIsReachable(graph, start, visited);
  }

  /** Visiting the popped `node` and pushing its neighbours keeps the invariant. */
  lemma DfsStep(graph: GraphPaths.Graph, start: string, order: seq<string>, popped: seq<string>, visited: set<string>)
    requires Closed(graph) && DfsInvariant(graph, start, order, popped, visited)
    requires popped != [] && popped[|popped| - 1] !in visited
    ensures popped[|popped| - 1] in graph
    ensures var node := popped[|popped| - 1];
      DfsInvariant(graph, start, order + [node], popped[..|popped| - 1] + graph[node], visited + {node})
  {
    var stack, node := popped[..|popped| - 1], popped[|popped| - 1];
    assert popped == stack + [node];
    var order', stack' := order + [node], stack + graph[node];
    forall u, v | u in order' && u in graph && v in graph[u] ensures v in visited + {node} || v in stack' {
      if u == node {
        assert v in stack';
      } else if v != node {
        assert v in visited || v in stack + [node];
      }
    }
    forall x | x in stack' ensures Reachable(graph, start, x) {
      if x !in stack {
        ReachableStep(graph, start, node, x);
      }
    }
    forall i, j | 0 <= i < j < |order'| ensures order'[i] != order'[j] {
      if j == |order| {
        assert order[i] in order;
      }
    }
  }

  /** A queue entry of `shortestPathUnweighted`: a vertex and its distance from `start`. */
  type Entry = (string, nat)

  /** The vertices of the queue entries, in queue order. */
  function Nodes(q: seq<Entry>): (r: seq<string>)
    ensures |r| == |q| && forall i :: 0 <= i < |q| ==> r[i] == q[i].0
  {
    seq(|q|, i requires 0 <= i < |q| => q[i].0)
  }

  /** The fewest edges on a walk from `s` to `x` is `d`. */
  ghost predicate Exact(g: GraphPaths.Graph, s: string, x: string, d: nat)
  {
    Within(g, s, x, d) && (d == 0 || !Within(g, s, x, d - 1))
  }

  /**
   * `shortestPathUnweighted(graph, start, end)`: the fewest edges on a walk from `start` to
   * `end` (0 when they are equal), or -1 when no walk leads there. When `start == end` the
   * first round meets `end` at the front and answers 0 before reading any list, so `start`
   * need not be a vertex then; that round is taken before the loop here.
   */
  method ShortestPathUnweighted(graph: GraphPaths.Graph, start: string, end: string) returns (dist: int)
    requires Closed(graph) && (start != end ==> start in graph)
    ensures dist >= -1 && (dist == -1 <==> !Reachable(graph, start, end))
    ensures dist >= 0 ==> Within(graph, start, end, dist) && forall k :: 0 <= k < dist ==> !Within(graph, start, end, k)
    ensures start == end ==> dist == 0
  {
    if start == end {
      assert Within(graph, start, end, 0);
      return 0;
    }
    var queue: seq<Entry> := [(start, 0)];
    var visited := {start};
    ghost var done: set<string> := {};
    assert Within(graph, start, start, 0);
    while queue != []
      invariant SpInvariant(graph, start, end, done, queue, visited)
      decreases |graph.Keys - done|
    {
      var (node, d) := queue[0];
      if node == end {
        SpFound(graph, start, end, done, queue, visited);
        return d;
      }
      SpFront(graph, start, end, done, queue, visited);
      Shrinks(graph.Keys, done, node);
      var rest := queue[1..];
      var visited', queue' := Expand(graph, node, d, visited, rest);
      SpStep(graph, start, end, done, queue, visited, rest, visited', queue');
      done := done + {node};
      visited, queue := visited', queue';
    }
    SpDone(graph, start, end, done, visited);
    return -1;
  }

  /**
   * What holds each time `shortestPathUnweighted` tests its queue: the visited vertices are
   * those expanded and those queued, each once; each queued distance is exact; the distances
   * rise along the queue by at most one in all; every neighbour of an expanded vertex is
   * visited; every vertex nearer than the front entry is expanded; `end` is not expanded.
   */
  ghost predicate SpInvariant(graph: GraphPaths.Graph, start: string, end: string, done: set<string>, queue: seq<Entry>, visited: set<string>)
  {
    visited <= graph.Keys &&
    (forall x :: x in visited <==> x in done || x in Nodes(queue)) &&
    Distinct(Nodes(queue)) && (forall x :: x in done ==> x !in Nodes(queue)) &&
    start in visited && end !in done &&
    (forall i :: 0 <= i < |queue| ==> Exact(graph, start, queue[i].0, queue[i].1)) &&
    (forall i, j :: 0 <= i <= j < |queue| ==> queue[i].1 <= queue[j].1 <= queue[i].1 + 1) &&
    (forall u, v :: u in done && u in graph && v in graph[u] ==> v in visited) &&
    (queue != [] ==> forall x, k :: k < queue[0].1 && Within(graph, start, x, k) ==> x in done)
  }

  /** The front entry is a vertex not yet expanded. */
  lemma SpFront(graph: GraphPaths.Graph, start: string, end: string, done: set<string>, queue: seq<Entry>, visited: set<string>)
    requires SpInvariant(graph, start, end, done, queue, visited) && queue != []
    ensures queue[0].0 in graph && queue[0].0 !in done
  {
    assert Nodes(queue)[0] == queue[0].0;
  }

  /** Meeting `end` at the front: its queued distance is the fewest edges to it. */
  lemma SpFound(graph: GraphPaths.Graph, start: string, end: string, done: set<string>, queue: seq<Entry>, visited: set<string>)
    requires SpInvariant(graph, start, end, done, queue, visited) && queue != [] && queue[0].0 == end
    ensures Reachable(graph, start, end) && Within(graph, start, end, queue[0].1)
    ensures forall k :: 0 <= k < queue[0].1 ==> !Within(graph, start, end, k)
  {
    var d := queue[0].1;
    assert Exact(graph, start, end, d);
    forall k | 0 <= k < d ensures !Within(graph, start, end, k) {
      WithinMonoNot(graph, start, end, k, d - 1);
    }
  }

  /** With the queue empty, `end` was never expanded and so cannot be reached. */
  lemma SpDone(graph: GraphPaths.Graph, start: string, end: string, done: set<string>, visited: set<string>)
    requires SpInvariant(graph, start, end, done, [], visited)
    ensures !Reachable(graph, start, end)
  {
    assert Shut(graph, done);
    if Reachable(graph, start, end) {
      var k :| Within(graph, start, end, k);
      ShutHoldsWithin(graph, start, done, end, k);
    }
  }

  /** Every vertex as near as the front entry has been visited. */
  lemma FrontVisited(graph: GraphPaths.Graph, start: string, end: string, done: set<string>, queue: seq<Entry>, visited: set<string>, y: string)
    requires SpInvariant(graph, start, end, done, queue, visited) && queue != []
    requires Within(graph, start, y, queue[0].1)
    ensures y in visited
  {
    var d := queue[0].1;
    if d > 0 && !Within(graph, start, y, d - 1) {
      var u :| u in graph && Within(graph, start, u, d - 1) && y in graph[u];
      assert u in done;
    } else if d > 0 {
      assert y in done;
    }
  }

  /**
   * One round of `shortestPathUnweighted`: expanding the front entry `(node, d)`, which is
   * not `end`, and queueing its unvisited neighbours at `d + 1` keeps the invariant.
   */
  lemma SpStep(graph: GraphPaths.Graph, start: string, end: string, done: set<string>, queue: seq<Entry>, visited: set<string>,
               rest: seq<Entry>, visited': set<string>, queue': seq<Entry>)
    requires Closed(graph) && SpInvariant(graph, start, end, done, queue, visited) && queue != []
    requires queue[0].0 != end && queue[0].0 in graph && rest == queue[1..]
    requires forall x :: x in visited' <==> x in visited || x in graph[queue[0].0]
    requires |queue'| >= |rest| && forall i :: 0 <= i < |rest| ==> queue'[i] == rest[i]
    requires forall i :: |rest| <= i < |queue'| ==>
      queue'[i].0 in graph[queue[0].0] && queue'[i].0 !in visited && queue'[i].1 == queue[0].1 + 1
    requires forall i, j :: |rest| <= i < j < |queue'| ==> queue'[i].0 != queue'[j].0
    requires forall x :: x in graph[queue[0].0] && x !in visited ==> x in Nodes(queue')
    ensures SpInvariant(graph, start, end, done + {queue[0].0}, queue', visited')
  {
    assert forall i :: 0 <= i < |rest| ==> queue'[i] == queue[i + 1];
    SpStepMembers(graph, start, end, done, queue, visited, visited', queue');
    SpStepDistances(graph, start, end, done, queue, visited, queue');
    SpStepFront(graph, start, end, done, queue, visited, queue');
  }

  /** The membership half of `SpStep`: visited, expanded and queued vertices after the round. */
  lemma SpStepMembers(graph: GraphPaths.Graph, start: string, end: string, done: set<string>, queue: seq<Entry>, visited: set<string>,
                      visited': set<string>, queue': seq<Entry>)
    requires Closed(graph) && SpInvariant(graph, start, end, done, queue, visited)
    requires queue != [] && queue[0].0 != end && queue[0].0 in graph
    requires forall x :: x in visited' <==> x in visited || x in graph[queue[0].0]
    requires |queue'| >= |queue| - 1 && forall i :: 0 <= i < |queue| - 1 ==> queue'[i] == queue[i + 1]
    requires forall i :: |queue| - 1 <= i < |queue'| ==> queue'[i].0 in graph[queue[0].0] && queue'[i].0 !in visited
    requires forall i, j :: |queue| - 1 <= i < j < |queue'| ==> queue'[i].0 != queue'[j].0
    requires forall x :: x in graph[queue[0].0] && x !in visited ==> x in Nodes(queue')
    ensures var done' := done + {queue[0].0};
      visited' <= graph.Keys &&
      (forall x :: x in visited' <==> x in done' || x in Nodes(queue')) &&
      Distinct(Nodes(queue')) && (forall x :: x in done' ==> x !in Nodes(queue')) &&
      start in visited' && end !in done' &&
      (forall u, v :: u in done' && u in graph && v in graph[u] ==> v in visited')
  {
    var node := queue[0].0;
    var n := |queue| - 1;
    var done' := done + {node};
    assert Nodes(queue)[0] == node;
    forall x | x in visited' && x !in done' && x in visited ensures x in Nodes(queue') {
      var i :| 0 <= i < |queue| && Nodes(queue)[i] == x;
      assert i > 0 && Nodes(queue')[i - 1] == x;
    }
    forall x | x in Nodes(queue') ensures x in visited' && x !in done' {
      var i :| 0 <= i < |queue'| && Nodes(queue')[i] == x;
      if i < n {
        assert Nodes(queue)[i + 1] == x;
      }
    }
    forall i, j | 0 <= i < j < |queue'| ensures Nodes(queue')[i] != Nodes(queue')[j] {
      if j < n {
        assert Nodes(queue)[i + 1] == Nodes(queue')[i] && Nodes(queue)[j + 1] == Nodes(queue')[j];
      } else if i < n {
        assert Nodes(queue)[i + 1] in visited;
      }
    }
  }

  /** The distance half of `SpStep`: queued distances stay exact and rise by at most one along the queue. */
  lemma SpStepDistances(graph: GraphPaths.Graph, start: string, end: string, done: set<string>, queue: seq<Entry>, visited: set<string>,
                        queue': seq<Entry>)
    requires SpInvariant(graph, start, end, done, queue, visited) && queue != [] && queue[0].0 in graph
    requires |queue'| >= |queue| - 1 && forall i :: 0 <= i < |queue| - 1 ==> queue'[i] == queue[i + 1]
    requires forall i :: |queue| - 1 <= i < |queue'| ==>
      queue'[i].0 in graph[queue[0].0] && queue'[i].0 !in visited && queue'[i].1 == queue[0].1 + 1
    ensures forall i :: 0 <= i < |queue'| ==> Exact(graph, start, queue'[i].0, queue'[i].1)
    ensures forall i, j :: 0 <= i <= j < |queue'| ==> queue'[i].1 <= queue'[j].1 <= queue'[i].1 + 1
    ensures forall i :: 0 <= i < |queue'| ==> queue[0].1 <= queue'[i].1 <= queue[0].1 + 1
  {
    var node, d := queue[0].0, queue[0].1;
    var n := |queue| - 1;
    forall i | n <= i < |queue'| ensures Exact(graph, start, queue'[i].0, queue'[i].1) {
      var y := queue'[i].0;
      assert Exact(graph, start, node, d);
      WithinStep(graph, start, node, y, d);
      if Within(graph, start, y, d) {
        FrontVisited(graph, start, end, done, queue, visited, y);
      }
    }
    forall i | 0 <= i < n ensures Exact(graph, start, queue'[i].0, queue'[i].1) && d <= queue'[i].1 <= d + 1 {
      assert queue'[i] == queue[i + 1];
    }
  }

  /** The front half of `SpStep`: every vertex nearer than the new front entry has been expanded. */
  lemma SpStepFront(graph: GraphPaths.Graph, start: string, end: string, done: set<string>, queue: seq<Entry>, visited: set<string>,
                    queue': seq<Entry>)
    requires SpInvariant(graph, start, end, done, queue, visited) && queue != []
    requires forall x :: x in done + {queue[0].0} ==> x !in Nodes(queue')
    requires forall x :: x in visited ==> x in done + {queue[0].0} || x in Nodes(queue')
    requires forall i :: 0 <= i < |queue'| ==> Exact(graph, start, queue'[i].0, queue'[i].1)
    requires forall i, j :: 0 <= i <= j < |queue'| ==> queue'[i].1 <= queue'[j].1
    requires forall i :: 0 <= i < |queue'| ==> queue[0].1 <= queue'[i].1 <= queue[0].1 + 1
    ensures queue' != [] ==> forall x, k :: k < queue'[0].1 && Within(graph, start, x, k) ==> x in done + {queue[0].0}
  {
    var d := queue[0].1;
    if queue' != [] {
      var d' := queue'[0].1;
      forall y, k | k < d' && Within(graph, start, y, k) ensures y in done + {queue[0].0} {
        if k >= d {
          WithinMono(graph, start, y, k, d);
          FrontVisited(graph, start, end, done, queue, visited, y);
          forall i | 0 <= i < |queue'| ensures Nodes(queue')[i] != y {
            assert Exact(graph, start, queue'[i].0, queue'[i].1);
            WithinMonoNot(graph, start, queue'[i].0, k, queue'[i].1 - 1);
          }
        }
      }
    }
  }

  /**
   * The inner loop of `shortestPathUnweighted`: each neighbour of `node` not yet visited is
   * marked visited and queued one edge further than `node`, in list order and once.
   */
  method Expand(graph: GraphPaths.Graph, node: string, d: nat, visited: set<string>, queue: seq<Entry>)
    returns (visited': set<string>, queue': seq<Entry>)
    requires node in graph
    ensures forall x :: x in visited' <==> x in visited || x in graph[node]
    ensures |queue'| >= |queue| && forall i :: 0 <= i < |queue| ==> queue'[i] == queue[i]
    ensures forall i :: |queue| <= i < |queue'| ==>
      queue'[i].0 in graph[node] && queue'[i].0 !in visited && queue'[i].1 == d + 1
    ensures forall i, j :: |queue| <= i < j < |queue'| ==> queue'[i].0 != queue'[j].0
    ensures forall x :: x in graph[node] && x !in visited ==> x in Nodes(queue')
  {
    visited', queue' := visited, queue;
    var neighbors := graph[node];
    var i := 0;
    while i < |neighbors|
      invariant 0 <= i <= |neighbors|
      invariant forall x :: x in visited' <==> x in visited || x in neighbors[..i]
      invariant |queue'| >= |queue| && forall j :: 0 <= j < |queue| ==> queue'[j] == queue[j]
      invariant forall j :: |queue| <= j < |queue'| ==>
        queue'[j].0 in neighbors[..i] && queue'[j].0 !in visited && queue'[j].1 == d + 1
      invariant forall j, k :: |queue| <= j < k < |queue'| ==> queue'[j].0 != queue'[k].0
      invariant forall x :: x in neighbors[..i] && x !in visited ==> x in Nodes(queue')
    {
      var neighbor := neighbors[i];
      assert neighbors[..i + 1] == neighbors[..i] + [neighbor];
      if neighbor !in visited' {
        visited' := visited' + {neighbor};
        ghost var before := queue';
        queue' := queue' + [(neighbor, d + 1)];
        assert Nodes(queue')[|queue'| - 1] == neighbor;
        forall x | x in Nodes(before) ensures x in Nodes(queue') {
          var j :| 0 <= j < |before| && Nodes(before)[j] == x;
          assert Nodes(queue')[j] == x;
        }
      }
      i := i + 1;
    }
    assert neighbors[..i] == neighbors;
  }

}
