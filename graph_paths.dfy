/**
 * Adjacency lists and walks, shared by the graph notes and the graph exercises. A graph maps
 * each vertex to the list of its neighbours; an undirected edge appears in both lists.
 */
module GraphPaths {
  /** An adjacency list: each vertex with its neighbours, in the order they were added. */
  type Graph = map<string, seq<string>>

  /** Every neighbour is itself a vertex, so `graph[neighbour]` is never `undefined`. */
  ghost predicate Closed(g: Graph)
  {
    forall u, v :: u in g && v in g[u] ==> v in g
  }

  /** No value occurs twice in `xs`. */
  ghost predicate Distinct(xs: seq<string>)
  {
    forall i, j :: 0 <= i < j < |xs| ==> xs[i] != xs[j]
  }

  /**
   * An undirected graph: every neighbour is a vertex, and each edge is listed at both of its
   * ends.
   */
  ghost predicate Undirected(g: Graph)
  {
    Closed(g) && forall u, v :: u in g && v in g[u] ==> u in g[v]
  }

  /** `g` with `v2` listed last among the neighbours of `v1`, then `v1` last among those of `v2`. */
  function Connect(g: Graph, v1: string, v2: string): (r: Graph)
    requires v1 in g && v2 in g
    ensures r.Keys == g.Keys && forall u :: u in g && u != v1 && u != v2 ==> r[u] == g[u]
    ensures v1 != v2 ==> r[v1] == g[v1] + [v2] && r[v2] == g[v2] + [v1]
    ensures v1 == v2 ==> r[v1] == g[v1] + [v1, v1]
  {
    var h := g[v1 := g[v1] + [v2]];
    h[v2 := h[v2] + [v1]]
  }

  /** Listing an edge between two vertices at both of its ends keeps a graph undirected. */
  lemma ConnectUndirected(g: Graph, v1: string, v2: string)
    requires Undirected(g) && v1 in g && v2 in g
    ensures Undirected(Connect(g, v1, v2)) && Connect(g, v1, v2).Keys == g.Keys
    ensures v1 in Connect(g, v1, v2)[v2] && v2 in Connect(g, v1, v2)[v1]
  {
    var c := Connect(g, v1, v2);
    assert forall u :: u in g ==> forall v :: v in g[u] ==> v in c[u];
    forall u, v | u in c && v in c[u] ensures v in c && u in c[v] {
      if v !in g[u] {
        assert (u == v1 && v == v2) || (u == v2 && v == v1);
      }
    }
  }

  /** Each vertex of `c` but the last is a vertex of `g` with the next one among its neighbours. */
  ghost predicate Walk(g: Graph, c: seq<string>)
  {
    forall i :: 0 <= i < |c| - 1 ==> c[i] in g && c[i + 1] in g[c[i]]
  }

  /** A walk of at least one edge that ends where it starts. */
  ghost predicate Cycle(g: Graph, c: seq<string>)
  {
    |c| >= 2 && c[0] == c[|c| - 1] && Walk(g, c)
  }

  /** Some cycle runs through `g`, following the edges in their listed direction. */
  ghost predicate HasCycle(g: Graph)
  {
    exists c :: Cycle(g, c)
  }

  /** Some walk of at most `k` edges leads from `s` to `x`. */
  ghost predicate Within(g: Graph, s: string, x: string, k: nat)
    decreases k
  {
    if k == 0 then x == s
    else Within(g, s, x, k - 1) || exists u :: u in g && Within(g, s, u, k - 1) && x in g[u]
  }

  /** Some walk leads from `s` to `x`. */
  ghost predicate Reachable(g: Graph, s: string, x: string)
  {
    exists k :: Within(g, s, x, k)
  }

  /** A set no edge leaves: the neighbours of its vertices are in it. */
  ghost predicate Shut(g: Graph, S: set<string>)
  {
    forall u, v :: u in S && u in g && v in g[u] ==> v in S
  }

  /** A walk of at most `j` edges is one of at most `k` edges when `j <= k`. */
  lemma {:induction false} WithinMono(g: Graph, s: string, x: string, j: nat, k: nat)
    requires j <= k && Within(g, s, x, j)
    ensures Within(g, s, x, k)
    decreases k
  {
    if j < k {
      WithinMono(g, s, x, j, k - 1);
    }
  }

  /** No walk of at most `k` edges means none of at most `j <= k` edges either. */
  lemma {:induction false} WithinMonoNot(g: Graph, s: string, x: string, j: nat, k: nat)
    requires j <= k && !Within(g, s, x, k)
    ensures !Within(g, s, x, j)
    decreases k
  {
    if j < k {
      WithinMonoNot(g, s, x, j, k - 1);
    }
  }

  /** One more edge from a vertex reached in `k` edges. */
  lemma WithinStep(g: Graph, s: string, u: string, x: string, k: nat)
    requires Within(g, s, u, k) && u in g && x in g[u]
    ensures Within(g, s, x, k + 1)
  {
  }

  /** A neighbour of a reachable vertex is reachable. */
  lemma ReachableStep(g: Graph, s: string, u: string, x: string)
    requires Reachable(g, s, u) && u in g && x in g[u]
    ensures Reachable(g, s, x)
  {
    var k :| Within(g, s, u, k);
    WithinStep(g, s, u, x, k);
  }

  /** Every vertex reachable from `s` lies in any set holding `s` that no edge leaves. */
  lemma {:induction false} ShutHoldsWithin(g: Graph, s: string, S: set<string>, x: string, k: nat)
    requires s in S && Shut(g, S) && Within(g, s, x, k)
    ensures x in S
    decreases k
  {
    if k > 0 && !Within(g, s, x, k - 1) {
      var u :| u in g && Within(g, s, u, k - 1) && x in g[u];
      ShutHoldsWithin(g, s, S, u, k - 1);
    } else if k > 0 {
      ShutHoldsWithin(g, s, S, x, k - 1);
    }
  }

  /** The reachable vertices of a shut set holding `s` are exactly what it holds, when it holds only reachable ones. */
  lemma ShutIsReachable(g: Graph, s: string, S: set<string>)
    requires s in S && Shut(g, S) && forall x :: x in S ==> Reachable(g, s, x)
    ensures forall x :: x in S <==> Reachable(g, s, x)
  {
    forall x | Reachable(g, s, x) ensures x in S {
      var k :| Within(g, s, x, k);
      ShutHoldsWithin(g, s, S, x, k);
    }
  }

  /** Adding a vertex of `A` not yet in `B` leaves fewer of `A` outside `B`. */
  lemma Shrinks(A: set<string>, B: set<string>, x: string)
    requires x in A && x !in B
    ensures |A - (B + {x})| < |A - B|
  {
    assert A - B == (A - (B + {x})) + {x};
  }

  /** A subset is no larger. */
  lemma {:induction false} SubsetCard(X: set<string>, Y: set<string>)
    requires X <= Y
    ensures |X| <= |Y|
    decreases X
  {
    if X != {} {
      var x :| x in X;
      SubsetCard(X - {x}, Y - {x});
      assert Y == (Y - {x}) + {x};
      assert X == (X - {x}) + {x};
    }
  }

  /** Once `x`, a vertex of `K` outside `A`, and all of `A` lie in `B`, fewer of `K` lie outside `B` than outside `A`. */
  lemma Fewer(K: set<string>, A: set<string>, B: set<string>, x: string)
    requires A + {x} <= B && x in K && x !in A
    ensures |K - B| < |K - A|
  {
    SubsetCard(K - B, K - (A + {x}));
    Shrinks(K, A, x);
  }

  /** `s` reaches itself. */
  lemma ReachableSelf(g: Graph, s: string)
    ensures Reachable(g, s, s)
  {
    assert Within(g, s, s, 0);
  }
}
