/**
 * The queries the GUI runs on a built graph besides the search itself: the cost of a
 * returned path (GUI.java:166-174) and the search for a second path with one edge of the
 * shortest path taken out (GUI.java:197-222).
 */
module PathQueries {
  import opened Graphs
  import opened ShortestPath

  /** GUI.calculatePathCost: the sum of the edge costs along the path, 0 for a path of at most one vertex. */
  method CalculatePathCost(p: seq<Vertex>, g: Graph) returns (total: real)
    requires Linked(g, p)
    ensures total == PathCost(g, p)
    ensures PositiveCosts(g) ==> total >= 0.0 && (|p| >= 2 ==> total > 0.0)
  {
    total := 0.0;
    var i := 0;
    while i < |p| - 1
      invariant 0 <= i && (|p| > 0 ==> i < |p|)
      invariant |p| > 0 ==> total == PathCost(g, p[..i + 1])
      invariant |p| == 0 ==> total == 0.0
    {
      var from, to := p[i], p[i + 1];
      assert HasEdge(g, from, to);
      assert p[..i + 2][..i + 1] == p[..i + 1];
      total := total + g[from][to];
      i := i + 1;
    }
    if |p| > 0 {
      assert p[..i + 1] == p;
    }
    if PositiveCosts(g) {
      PathCostNonNegative(g, p);
    }
  }

  /** The graph with the edge from `u` to `v` taken out. */
  function WithoutEdge(g: Graph, u: Vertex, v: Vertex): (h: Graph)
    ensures h.Keys == g.Keys
    ensures forall x, y :: HasEdge(h, x, y) <==> HasEdge(g, x, y) && (x, y) != (u, v)
  {
    if u in g then g[u := g[u] - {v}] else g
  }

  /** A path of the graph with an edge taken out is a path of the graph itself, at the same cost. */
  lemma {:induction false} SubgraphPath(g: Graph, u: Vertex, v: Vertex, p: seq<Vertex>)
    requires Linked(WithoutEdge(g, u, v), p)
    ensures Linked(g, p)
    ensures PathCost(g, p) == PathCost(WithoutEdge(g, u, v), p)
  {
    var h := WithoutEdge(g, u, v);
    if |p| > 1 {
      var q := p[..|p| - 1];
      assert Linked(h, q) by {
        forall i, j | 0 <= i < |q| && j == i + 1 && j < |q|
          ensures HasEdge(h, q[i], q[j])
        {
          assert q[i] == p[i] && q[j] == p[j];
        }
      }
      SubgraphPath(g, u, v, q);
      assert HasEdge(h, p[|p| - 2], p[|p| - 1]);
      assert q + [p[|p| - 1]] == p;
      AppendCost(g, q, p[|p| - 1]);
      AppendCost(h, q, p[|p| - 1]);
    }
  }

  /** A path that uses the edge from `u` to `v` is not a path once that edge is taken out. */
  lemma UsesRemovedEdge(g: Graph, p: seq<Vertex>, i: nat)
    requires i + 1 < |p|
    ensures !Linked(WithoutEdge(g, p[i], p[i + 1]), p)
  {
    assert !HasEdge(WithoutEdge(g, p[i], p[i + 1]), p[i], p[i + 1]);
  }

  /** Taking an edge out keeps the conditions the search needs. */
  lemma WithoutEdgeKeepsSearchable(g: Graph, u: Vertex, v: Vertex)
    requires DestinationsAreKeys(g) && PositiveCosts(g)
    ensures DestinationsAreKeys(WithoutEdge(g, u, v)) && PositiveCosts(WithoutEdge(g, u, v))
  {
  }

  /** Putting back the cost that was taken out restores the graph. */
  lemma RestoreEdge(g: Graph, u: Vertex, v: Vertex)
    requires HasEdge(g, u, v)
    ensures var h := WithoutEdge(g, u, v); h[u := h[u][v := g[u][v]]] == g
  {
    var h := WithoutEdge(g, u, v);
    assert h[u][v := g[u][v]] == g[u];
  }

  /**
   * `alt` is a path of `g` that differs from `shortest` and is a cheapest path among those that
   * avoid the `k`-th edge of `shortest`.
   */
  ghost predicate CheapestAvoiding(g: Graph, shortest: seq<Vertex>, k: nat, alt: seq<Vertex>, start: Vertex, end: Vertex)
  {
    && k + 1 < |shortest|
    && alt != shortest
    && IsPathFromTo(g, alt, start, end)
    && IsPathFromTo(WithoutEdge(g, shortest[k], shortest[k + 1]), alt, start, end)
    && forall p :: IsPathFromTo(WithoutEdge(g, shortest[k], shortest[k + 1]), p, start, end) ==>
         PathCost(g, alt) <= PathCost(g, p)
  }

  /** With any one of the first `n` edges of `shortest` taken out, `end` cannot be reached. */
  ghost predicate NoDetour(g: Graph, shortest: seq<Vertex>, n: nat, start: Vertex, end: Vertex)
    requires n < |shortest|
  {
    forall i :: 0 <= i < n ==> !Reachable(WithoutEdge(g, shortest[i], shortest[i + 1]), start, end)
  }

  /**
   * What a search in the graph with the `i`-th edge of `shortest` taken out tells about the
   * graph itself: a path it finds differs from `shortest` and is a cheapest path that avoids the edge.
   */
  lemma SearchWithoutEdge(g: Graph, shortest: seq<Vertex>, i: nat, found: seq<Vertex>, start: Vertex, end: Vertex)
    requires i + 1 < |shortest|
    requires found != [] ==>
      var h := WithoutEdge(g, shortest[i], shortest[i + 1]);
      && IsPathFromTo(h, found, start, end)
      && forall p :: IsPathFromTo(h, p, start, end) ==> PathCost(h, found) <= PathCost(h, p)
    ensures found != [] ==> CheapestAvoiding(g, shortest, i, found, start, end)
  {
    if found != [] {
      var from, to := shortest[i], shortest[i + 1];
      UsesRemovedEdge(g, shortest, i);
      SubgraphPath(g, from, to, found);
      forall p | IsPathFromTo(WithoutEdge(g, from, to), p, start, end)
        ensures PathCost(g, found) <= PathCost(g, p)
      {
        SubgraphPath(g, from, to, p);
      }
    }
  }

  /** The graph of the GUI, whose inner maps findAlternativePath edits in place. */
  class QueryGraph {
    var adj: Graph

    constructor (g: Graph)
      ensures adj == g
    {
      adj := g;
    }

    /**
     * GUI.findAlternativePath. For each edge of the shortest path in turn, takes it out, searches
     * again, and puts it back; returns the first search result that is non-empty and differs from
     * the shortest path. The graph is left as it was.
     */
    method FindAlternativePath(shortest: seq<Vertex>, start: Vertex, end: Vertex)
      returns (alternative: seq<Vertex>, ghost k: nat)
      requires DestinationsAreKeys(adj) && PositiveCosts(adj)
      requires |shortest| > 2 ==> Linked(adj, shortest)
      modifies this
      ensures adj == old(adj)
      ensures |shortest| <= 2 ==> alternative == []
      ensures alternative != [] ==>
        CheapestAvoiding(adj, shortest, k, alternative, start, end) && NoDetour(adj, shortest, k, start, end)
      ensures alternative == [] && |shortest| > 2 ==> NoDetour(adj, shortest, |shortest| - 1, start, end)
    {
      k := 0;
      if |shortest| <= 2 {
        return [], 0;
      }
      ghost var g := adj;
      var i := 0;
      while i < |shortest| - 1
        invariant 0 <= i <= |shortest| - 1
        invariant adj == g
        invariant NoDetour(g, shortest, i, start, end)
      {
        var from, to := shortest[i], shortest[i + 1];
        assert HasEdge(adj, from, to);
        var cost := adj[from][to];
        ghost var h := WithoutEdge(g, from, to);
        adj := adj[from := adj[from] - {to}];
        assert adj == h;
        WithoutEdgeKeepsSearchable(g, from, to);
        var found := Dijkstra(adj, start, end);
        RestoreEdge(g, from, to);
        adj := adj[from := adj[from][to := cost]];
        SearchWithoutEdge(g, shortest, i, found, start, end);
        if found != shortest && found != [] {
          return found, i;
        }
        i := i + 1;
      }
      return [], 0;
    }
  }
}
