/**
 * The adjacency structure of the query engine (GUI.java): a map from a source page
 * to a map from each destination page to the edge cost, and what paths over it are.
 */
module Graphs {
  type Vertex = string
  type Graph = map<Vertex, map<Vertex, real>>

  predicate HasEdge(g: Graph, u: Vertex, v: Vertex)
  {
    u in g && v in g[u]
  }

  /** Every consecutive pair of the sequence is an edge of the graph. */
  predicate Linked(g: Graph, p: seq<Vertex>)
  {
    forall i, j :: 0 <= i < |p| && j == i + 1 && j < |p| ==> HasEdge(g, p[i], p[j])
  }

  /** A path from `a` to `b`: start and end inclusive. */
  predicate IsPathFromTo(g: Graph, p: seq<Vertex>, a: Vertex, b: Vertex)
  {
    |p| > 0 && p[0] == a && p[|p| - 1] == b && Linked(g, p)
  }

  ghost predicate Reachable(g: Graph, a: Vertex, b: Vertex)
  {
    exists p :: IsPathFromTo(g, p, a, b)
  }

  /** Every cost is a positive real (an edge's cost is 1/similarity). */
  predicate PositiveCosts(g: Graph)
  {
    forall u, v :: u in g && v in g[u] ==> g[u][v] > 0.0
  }

  /**
   * Every destination is also a source. Dijkstra initialises distances only for the keys
   * (GUI.java:30-32) and unboxes `distances.get(neighbour)` (GUI.java:47).
   */
  predicate DestinationsAreKeys(g: Graph)
  {
    forall u, v :: u in g && v in g[u] ==> v in g
  }

  function Destinations(g: Graph): set<Vertex>
  {
    set u, v | u in g && v in g[u] :: v
  }

  /** The vertex set: every source and every destination. */
  function Vertices(g: Graph): set<Vertex>
  {
    g.Keys + Destinations(g)
  }

  /** Sum of the costs of the consecutive pairs, summed from the front as the source's loop does. */
  function PathCost(g: Graph, p: seq<Vertex>): real
    requires Linked(g, p)
  {
    if |p| <= 1 then 0.0
    else
      assert HasEdge(g, p[|p| - 2], p[|p| - 1]);
      PathCost(g, p[..|p| - 1]) + g[p[|p| - 2]][p[|p| - 1]]
  }

  lemma {:induction false} PathCostNonNegative(g: Graph, p: seq<Vertex>)
    requires PositiveCosts(g) && Linked(g, p)
    ensures PathCost(g, p) >= 0.0
    ensures |p| >= 2 ==> PathCost(g, p) > 0.0
  {
    if |p| > 1 {
      PathCostNonNegative(g, p[..|p| - 1]);
    }
  }

  /** With positive costs a prefix of a path never costs more than the path. */
  lemma {:induction false} PrefixCostAtMost(g: Graph, p: seq<Vertex>, k: nat)
    requires PositiveCosts(g) && Linked(g, p)
    requires 1 <= k <= |p|
    ensures Linked(g, p[..k]) && PathCost(g, p[..k]) <= PathCost(g, p)
  {
    if k < |p| {
      var q := p[..|p| - 1];
      assert q[..k] == p[..k];
      PrefixCostAtMost(g, q, k);
    } else {
      assert p[..k] == p;
    }
  }

  /** Extending a path by one edge adds exactly that edge's cost. */
  lemma AppendCost(g: Graph, p: seq<Vertex>, v: Vertex)
    requires |p| > 0 && Linked(g, p) && HasEdge(g, p[|p| - 1], v)
    ensures Linked(g, p + [v])
    ensures PathCost(g, p + [v]) == PathCost(g, p) + g[p[|p| - 1]][v]
  {
    assert (p + [v])[..|p|] == p;
  }

  lemma ReachableRefl(g: Graph, a: Vertex)
    ensures Reachable(g, a, a)
  {
    assert IsPathFromTo(g, [a], a, a);
  }

  /** Reachability extends backwards over an edge. */
  lemma ReachablePrepend(g: Graph, u: Vertex, v: Vertex, w: Vertex)
    requires HasEdge(g, u, v) && Reachable(g, v, w)
    ensures Reachable(g, u, w)
  {
    var p :| IsPathFromTo(g, p, v, w);
    var q := [u] + p;
    assert forall i :: 0 < i < |q| ==> q[i] == p[i - 1];
    assert IsPathFromTo(g, q, u, w);
  }

  /** Paths only reach vertices of the graph (or stay at their start). */
  lemma {:induction false} ReachableFromKeys(g: Graph, x: Vertex)
    ensures x in Vertices(g) <==> exists k :: k in g && Reachable(g, k, x)
  {
    if x in Vertices(g) {
      if x in g {
        ReachableRefl(g, x);
      } else {
        var u :| u in g && x in g[u];
        ReachableRefl(g, x);
        ReachablePrepend(g, u, x, x);
      }
    }
    if exists k :: k in g && Reachable(g, k, x) {
      var k :| k in g && Reachable(g, k, x);
      var p :| IsPathFromTo(g, p, k, x);
      if |p| > 1 {
        assert HasEdge(g, p[|p| - 2], p[|p| - 1]);
      }
    }
  }
}
