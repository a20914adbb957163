/**
 * Dijkstra's search with predecessor walk-back (GUI.java:23-71).
 *
 * Distances live in a map that holds only finite values: a vertex that is absent has the
 * distance +infinity that the source stores for every key of the graph. The source's priority
 * queue orders entries by a comparator reading the mutable distance map and is not reordered
 * when a distance drops; here a poll removes some queued vertex of minimal current distance.
 */
module ShortestPath {
  import opened Optional
  import opened Graphs

  /** Every predecessor is ranked, and a ranked vertex's predecessor has a smaller rank. */
  ghost predicate Ranked(pred: map<Vertex, Vertex>, rank: map<Vertex, nat>)
  {
    forall v :: v in pred ==> pred[v] in rank && (v in rank ==> rank[pred[v]] < rank[v])
  }

  /** The walk back from `v` along predecessor links, ending at a vertex without one. */
  ghost function Chain(pred: map<Vertex, Vertex>, rank: map<Vertex, nat>, v: Vertex): (c: seq<Vertex>)
    requires Ranked(pred, rank)
    ensures |c| > 0 && c[|c| - 1] == v && c[0] !in pred
    decreases if v in rank then 0 else 1, if v in rank then rank[v] else 0
  {
    if v in pred then Chain(pred, rank, pred[v]) + [v] else [v]
  }

  /**
   * Walks back from `end` prepending each vertex, then keeps the result only if it starts
   * at `start`. `rank` (ghost) witnesses that the predecessor links have no cycle.
   */
  method BuildPath(pred: map<Vertex, Vertex>, start: Vertex, end: Vertex, ghost rank: map<Vertex, nat>)
    returns (path: seq<Vertex>)
    requires Ranked(pred, rank)
    ensures path == [] <==> Chain(pred, rank, end)[0] != start
    ensures path != [] ==> path == Chain(pred, rank, end)
    ensures path != [] ==> path[0] == start && path[|path| - 1] == end
  {
    var p: seq<Vertex> := [];
    var at: Option<Vertex> := Some(end);
    while at.Some?
      invariant at.Some? ==> Chain(pred, rank, end) == Chain(pred, rank, at.value) + p
      invariant at.None? ==> Chain(pred, rank, end) == p
      decreases if at.None? then 0 else if at.value in rank then 1 else 2,
                if at.Some? && at.value in rank then rank[at.value] else 0
    {
      var v := at.value;
      p := [v] + p;
      if v in pred {
        at := Some(pred[v]);
      } else {
        at := None;
      }
    }
    if p[0] == start {
      path := p;
    } else {
      path := [];
    }
  }

  /** Facts about the distance and predecessor maps that hold throughout the search. */
  ghost predicate DistInv(g: Graph, start: Vertex, dist: map<Vertex, real>, pred: map<Vertex, Vertex>,
                          visited: set<Vertex>, rank: map<Vertex, nat>, tick: nat)
  {
    && start in dist && dist[start] == 0.0 && start !in pred
    && dist.Keys <= g.Keys + {start}
    && (forall v :: v in dist ==> dist[v] >= 0.0)
    && visited <= dist.Keys
    && (forall v :: v in pred ==>
          v in dist && pred[v] in visited && pred[v] in dist && HasEdge(g, pred[v], v)
          && dist[v] == dist[pred[v]] + g[pred[v]][v])
    && (forall v :: v in dist && v != start ==> v in pred)
    && rank.Keys == visited && (forall v :: v in rank ==> rank[v] < tick)
    && Ranked(pred, rank)
  }

  /** Every reached but unvisited vertex is queued, and everything queued has been reached. */
  ghost predicate FrontierInv(dist: map<Vertex, real>, queue: multiset<Vertex>, visited: set<Vertex>)
  {
    && (forall v :: v in queue ==> v in dist)
    && (forall v :: v in dist && v !in visited ==> v in queue)
  }

  /** The out-edges of every visited vertex towards unvisited ones, except those of `c`, have been relaxed. */
  ghost predicate RelaxedExcept(g: Graph, dist: map<Vertex, real>, visited: set<Vertex>, c: Option<Vertex>)
  {
    forall x, y :: x in visited && Some(x) != c && x in dist && HasEdge(g, x, y) && y !in visited ==>
      y in dist && dist[y] <= dist[x] + g[x][y]
  }

  ghost predicate Relaxed(g: Graph, dist: map<Vertex, real>, visited: set<Vertex>)
  {
    RelaxedExcept(g, dist, visited, None)
  }

  /** The distance of every visited vertex is at most the cost of any path to it. */
  ghost predicate Settled(g: Graph, start: Vertex, dist: map<Vertex, real>, visited: set<Vertex>)
  {
    forall x, p :: x in visited && x in dist && IsPathFromTo(g, p, start, x) ==> dist[x] <= PathCost(g, p)
  }

  /** The invariant of the search loop. */
  ghost predicate SearchInv(g: Graph, start: Vertex, dist: map<Vertex, real>, pred: map<Vertex, Vertex>,
                            queue: multiset<Vertex>, visited: set<Vertex>, rank: map<Vertex, nat>, tick: nat)
  {
    && DistInv(g, start, dist, pred, visited, rank, tick)
    && FrontierInv(dist, queue, visited)
    && Relaxed(g, dist, visited)
    && Settled(g, start, dist, visited)
  }

  /** The state once `current` is polled and marked visited, before its out-edges are relaxed. */
  ghost predicate PolledInv(g: Graph, start: Vertex, current: Vertex, dist: map<Vertex, real>,
                            pred: map<Vertex, Vertex>, queue: multiset<Vertex>, visited: set<Vertex>,
                            rank: map<Vertex, nat>, tick: nat, wasVisited: bool)
  {
    && current in visited
    && DistInv(g, start, dist, pred, visited, rank, tick)
    && FrontierInv(dist, queue, visited)
    && RelaxedExcept(g, dist, visited, Some(current))
    && (wasVisited ==> Relaxed(g, dist, visited))
    && Settled(g, start, dist, visited)
  }

  /** A finite non-empty set of reached vertices has one of minimal distance. */
  lemma {:induction false} SetHasMinimum(s: set<Vertex>, dist: map<Vertex, real>) returns (m: Vertex)
    requires s != {} && s <= dist.Keys
    ensures m in s && forall w :: w in s ==> dist[m] <= dist[w]
    decreases |s|
  {
    var x :| x in s;
    if s == {x} {
      return x;
    }
    var m' := SetHasMinimum(s - {x}, dist);
    m := if dist[x] <= dist[m'] then x else m';
    forall w | w in s
      ensures dist[m] <= dist[w]
    {
      if w != x {
        assert w in s - {x};
      }
    }
  }

  /** The poll always finds an element of minimal distance. */
  lemma QueueHasMinimum(queue: multiset<Vertex>, dist: map<Vertex, real>)
    requires queue != multiset{}
    requires forall v :: v in queue ==> v in dist
    ensures exists m :: m in queue && forall w :: w in queue ==> dist[m] <= dist[w]
  {
    var x :| x in queue;
    var support := set v | v in queue;
    assert x in support;
    var m := SetHasMinimum(support, dist);
    assert m in queue;
  }

  /** The first vertex of a path that is not visited, when the path ends outside the visited set. */
  lemma FirstUnvisited(p: seq<Vertex>, visited: set<Vertex>) returns (k: nat)
    requires |p| > 0 && p[|p| - 1] !in visited
    ensures k < |p| && p[k] !in visited
    ensures forall j :: 0 <= j < k ==> p[j] in visited
  {
    k := 0;
    while p[k] in visited
      invariant k < |p|
      invariant forall j :: 0 <= j < k ==> p[j] in visited
      decreases |p| - k
    {
      k := k + 1;
    }
  }

  /**
   * Where a path from `start` first leaves the visited set, the vertex reached has a distance no
   * larger than the cost of the path up to it.
   */
  lemma CrossingBound(g: Graph, start: Vertex, dist: map<Vertex, real>, visited: set<Vertex>,
                      p: seq<Vertex>, k: nat)
    requires PositiveCosts(g)
    requires start in dist && dist[start] == 0.0 && visited <= dist.Keys
    requires Relaxed(g, dist, visited) && Settled(g, start, dist, visited)
    requires |p| > 0 && p[0] == start && Linked(g, p)
    requires k < |p| && p[k] !in visited && (k > 0 ==> p[k - 1] in visited)
    ensures p[k] in dist && Linked(g, p[..k + 1]) && dist[p[k]] <= PathCost(g, p[..k + 1])
  {
    PrefixCostAtMost(g, p, k + 1);
    if k > 0 {
      var x, y := p[k - 1], p[k];
      assert HasEdge(g, x, y);
      PrefixCostAtMost(g, p, k);
      assert IsPathFromTo(g, p[..k], start, x);
      assert dist[x] <= PathCost(g, p[..k]);
      AppendCost(g, p[..k], y);
      assert p[..k] + [y] == p[..k + 1];
    }
  }

  /**
   * The key step of Dijkstra's argument: with positive costs, a queued vertex of minimal
   * distance has a distance that no path to it undercuts.
   */
  lemma PolledIsSettled(g: Graph, start: Vertex, dist: map<Vertex, real>, queue: multiset<Vertex>,
                        visited: set<Vertex>, current: Vertex, p: seq<Vertex>)
    requires PositiveCosts(g)
    requires start in dist && dist[start] == 0.0 && visited <= dist.Keys
    requires FrontierInv(dist, queue, visited) && Relaxed(g, dist, visited) && Settled(g, start, dist, visited)
    requires current in queue && forall w :: w in queue ==> dist[current] <= dist[w]
    requires IsPathFromTo(g, p, start, current)
    ensures dist[current] <= PathCost(g, p)
  {
    if current !in visited {
      var k := FirstUnvisited(p, visited);
      CrossingBound(g, start, dist, visited, p, k);
      PrefixCostAtMost(g, p, k + 1);
      assert p[k] in queue;
    }
  }

  /** PolledIsSettled, for every path at once. */
  lemma PolledVertexIsSettled(g: Graph, start: Vertex, dist: map<Vertex, real>, queue: multiset<Vertex>,
                              visited: set<Vertex>, current: Vertex)
    requires PositiveCosts(g)
    requires start in dist && dist[start] == 0.0 && visited <= dist.Keys
    requires FrontierInv(dist, queue, visited) && Relaxed(g, dist, visited) && Settled(g, start, dist, visited)
    requires current in queue && forall w :: w in queue ==> dist[current] <= dist[w]
    ensures forall p :: IsPathFromTo(g, p, start, current) ==> dist[current] <= PathCost(g, p)
  {
    forall p | IsPathFromTo(g, p, start, current)
      ensures dist[current] <= PathCost(g, p)
    {
      PolledIsSettled(g, start, dist, queue, visited, current, p);
    }
  }

  /**
   * Polling `current` and marking it visited (ranking it if it is new) keeps the invariants;
   * only the out-edges of `current` may now be unrelaxed.
   */
  lemma PollKeepsInvariants(g: Graph, start: Vertex, dist: map<Vertex, real>, pred: map<Vertex, Vertex>,
                            queue: multiset<Vertex>, visited: set<Vertex>, rank: map<Vertex, nat>, tick: nat,
                            current: Vertex, rank': map<Vertex, nat>, tick': nat)
    requires PositiveCosts(g)
    requires SearchInv(g, start, dist, pred, queue, visited, rank, tick)
    requires current in queue && forall w :: w in queue ==> dist[current] <= dist[w]
    requires current in visited ==> rank' == rank && tick' == tick
    requires current !in visited ==> rank' == rank[current := tick] && tick' == tick + 1
    ensures forall p :: IsPathFromTo(g, p, start, current) ==> dist[current] <= PathCost(g, p)
    ensures PolledInv(g, start, current, dist, pred, queue - multiset{current}, visited + {current},
                      rank', tick', current in visited)
  {
    PolledVertexIsSettled(g, start, dist, queue, visited, current);
    if current in visited {
      assert visited + {current} == visited;
    } else {
      FirstVisitKeepsDistInv(g, start, dist, pred, visited, rank, tick, current);
    }
    PollKeepsFrontier(dist, queue, visited, current);
  }

  /** Ranking a vertex on its first visit keeps the distance invariant. */
  lemma FirstVisitKeepsDistInv(g: Graph, start: Vertex, dist: map<Vertex, real>, pred: map<Vertex, Vertex>,
                               visited: set<Vertex>, rank: map<Vertex, nat>, tick: nat, current: Vertex)
    requires DistInv(g, start, dist, pred, visited, rank, tick)
    requires current in dist && current !in visited
    ensures DistInv(g, start, dist, pred, visited + {current}, rank[current := tick], tick + 1)
  {
    var rank' := rank[current := tick];
    forall v | v in pred
      ensures pred[v] in rank' && (v in rank' ==> rank'[pred[v]] < rank'[v])
    {
      assert pred[v] in visited;
    }
  }

  /** Removing the polled vertex and marking it visited keeps the frontier invariant. */
  lemma PollKeepsFrontier(dist: map<Vertex, real>, queue: multiset<Vertex>, visited: set<Vertex>, current: Vertex)
    requires FrontierInv(dist, queue, visited) && current in queue
    ensures FrontierInv(dist, queue - multiset{current}, visited + {current})
  {
    forall v | v in dist && v !in visited + {current}
      ensures v in queue - multiset{current}
    {
      assert v in queue && v != current;
    }
  }

  /** One successful relaxation keeps the distance, predecessor and frontier invariants. */
  lemma RelaxOnePreserves(g: Graph, start: Vertex, current: Vertex, nb: Vertex, newDist: real,
                          dist: map<Vertex, real>, pred: map<Vertex, Vertex>, queue: multiset<Vertex>,
                          visited: set<Vertex>, rank: map<Vertex, nat>, tick: nat)
    requires DestinationsAreKeys(g) && PositiveCosts(g)
    requires current in visited && HasEdge(g, current, nb) && nb !in visited
    requires DistInv(g, start, dist, pred, visited, rank, tick)
    requires FrontierInv(dist, queue, visited)
    requires newDist == dist[current] + g[current][nb]
    requires nb !in dist || newDist < dist[nb]
    ensures DistInv(g, start, dist[nb := newDist], pred[nb := current], visited, rank, tick)
    ensures FrontierInv(dist[nb := newDist], queue + multiset{nb}, visited)
  {
    assert nb != start;
    var dist', pred' := dist[nb := newDist], pred[nb := current];
    assert start in dist' && dist'[start] == 0.0 && start !in pred';
    assert dist'.Keys <= g.Keys + {start};
    assert forall v :: v in dist' ==> dist'[v] >= 0.0;
    assert visited <= dist'.Keys;
    assert forall v :: v in pred' ==>
      v in dist' && pred'[v] in visited && pred'[v] in dist' && HasEdge(g, pred'[v], v)
      && dist'[v] == dist'[pred'[v]] + g[pred'[v]][v];
    assert forall v :: v in dist' && v != start ==> v in pred';
    assert Ranked(pred', rank);
  }

  /** The out-edges of `current` towards unvisited vertices outside `todo` have been relaxed. */
  ghost predicate RelaxedTowards(d: map<Vertex, real>, current: Vertex, neighbours: map<Vertex, real>,
                                 todo: set<Vertex>, visited: set<Vertex>)
    requires current in d
  {
    forall y :: y in neighbours && y !in todo && y !in visited ==> y in d && d[y] <= d[current] + neighbours[y]
  }

  /** Skipping a neighbour that is visited or already close enough keeps the relaxation facts. */
  lemma SkipKeepsBounds(d: map<Vertex, real>, current: Vertex, neighbours: map<Vertex, real>,
                        todo: set<Vertex>, visited: set<Vertex>, nb: Vertex)
    requires current in d && nb in neighbours
    requires nb in visited || (nb in d && d[nb] <= d[current] + neighbours[nb])
    requires RelaxedTowards(d, current, neighbours, todo, visited)
    ensures RelaxedTowards(d, current, neighbours, todo - {nb}, visited)
  {
  }

  /** Lowering the distance of an unvisited neighbour keeps the relaxation facts. */
  lemma ImproveKeepsBounds(g: Graph, d: map<Vertex, real>, current: Vertex, neighbours: map<Vertex, real>,
                           todo: set<Vertex>, visited: set<Vertex>, nb: Vertex, x: real)
    requires current in visited && visited <= d.Keys && nb !in visited && nb in neighbours
    requires x == d[current] + neighbours[nb] && (nb !in d || x < d[nb])
    requires RelaxedExcept(g, d, visited, Some(current))
    requires RelaxedTowards(d, current, neighbours, todo, visited)
    ensures RelaxedExcept(g, d[nb := x], visited, Some(current))
    ensures RelaxedTowards(d[nb := x], current, neighbours, todo - {nb}, visited)
  {
  }

  /**
   * The loop over the out-edges of the polled vertex `current` (GUI.java:44-53): each unvisited
   * neighbour whose distance strictly drops gets the new distance, `current` as predecessor,
   * and a new queue entry. When `current` had been polled before, nothing changes.
   */
  method RelaxNeighbours(g: Graph, start: Vertex, current: Vertex, dist: map<Vertex, real>,
                         pred: map<Vertex, Vertex>, queue: multiset<Vertex>, visited: set<Vertex>,
                         ghost rank: map<Vertex, nat>, ghost tick: nat, ghost wasVisited: bool)
    returns (dist': map<Vertex, real>, pred': map<Vertex, Vertex>, queue': multiset<Vertex>)
    requires DestinationsAreKeys(g) && PositiveCosts(g)
    requires PolledInv(g, start, current, dist, pred, queue, visited, rank, tick, wasVisited)
    ensures SearchInv(g, start, dist', pred', queue', visited, rank, tick)
    ensures wasVisited ==> dist' == dist && pred' == pred && queue' == queue
  {
    dist', pred', queue' := dist, pred, queue;
    var neighbours: map<Vertex, real> := if current in g then g[current] else map[];
    var todo := neighbours.Keys;
    while todo != {}
      invariant todo <= neighbours.Keys
      invariant DistInv(g, start, dist', pred', visited, rank, tick)
      invariant FrontierInv(dist', queue', visited)
      invariant forall v :: v in visited ==> dist'[v] == dist[v]
      invariant RelaxedExcept(g, dist', visited, Some(current))
      invariant RelaxedTowards(dist', current, neighbours, todo, visited)
      invariant wasVisited ==> dist' == dist && pred' == pred && queue' == queue
      decreases todo
    {
      var nb :| nb in todo;
      if nb !in visited {
        var newDist := dist'[current] + neighbours[nb];
        if nb !in dist' || newDist < dist'[nb] {
          RelaxOnePreserves(g, start, current, nb, newDist, dist', pred', queue', visited, rank, tick);
          ImproveKeepsBounds(g, dist', current, neighbours, todo, visited, nb, newDist);
          dist' := dist'[nb := newDist];
          pred' := pred'[nb := current];
          queue' := queue' + multiset{nb};
        } else {
          SkipKeepsBounds(dist', current, neighbours, todo, visited, nb);
        }
      } else {
        SkipKeepsBounds(dist', current, neighbours, todo, visited, nb);
      }
      todo := todo - {nb};
    }
  }

  /** The walk back from a reached vertex is a path from `start` whose cost is the distance. */
  lemma {:induction false} ChainIsPath(g: Graph, start: Vertex, dist: map<Vertex, real>, pred: map<Vertex, Vertex>,
                                       visited: set<Vertex>, rank: map<Vertex, nat>, tick: nat, v: Vertex)
    requires DistInv(g, start, dist, pred, visited, rank, tick)
    requires v in dist
    ensures IsPathFromTo(g, Chain(pred, rank, v), start, v)
    ensures PathCost(g, Chain(pred, rank, v)) == dist[v]
    decreases if v in rank then 0 else 1, if v in rank then rank[v] else 0
  {
    if v in pred {
      var u := pred[v];
      ChainIsPath(g, start, dist, pred, visited, rank, tick, u);
      AppendCost(g, Chain(pred, rank, u), v);
    }
  }

  /** When the frontier is exhausted without meeting `end`, nothing reaches it. */
  lemma NothingReachesUnvisited(g: Graph, start: Vertex, end: Vertex, dist: map<Vertex, real>, visited: set<Vertex>)
    requires start in visited && end !in visited
    requires Relaxed(g, dist, visited) && visited <= dist.Keys
    requires dist.Keys <= visited
    ensures !Reachable(g, start, end)
  {
    if Reachable(g, start, end) {
      var p :| IsPathFromTo(g, p, start, end);
      var k := 0;
      while k < |p| - 1
        invariant 0 <= k < |p| && p[k] in visited
        decreases |p| - k
      {
        assert HasEdge(g, p[k], p[k + 1]);
        k := k + 1;
      }
    }
  }

  /** When `end` is polled, the walk back from it is a cheapest path. */
  lemma FoundPathIsShortest(g: Graph, start: Vertex, end: Vertex, dist: map<Vertex, real>, pred: map<Vertex, Vertex>,
                            visited: set<Vertex>, rank: map<Vertex, nat>, tick: nat, path: seq<Vertex>)
    requires DistInv(g, start, dist, pred, visited, rank, tick)
    requires end in dist
    requires forall p :: IsPathFromTo(g, p, start, end) ==> dist[end] <= PathCost(g, p)
    requires path == [] <==> Chain(pred, rank, end)[0] != start
    requires path != [] ==> path == Chain(pred, rank, end)
    ensures path != [] && IsPathFromTo(g, path, start, end)
    ensures forall p :: IsPathFromTo(g, p, start, end) ==> PathCost(g, path) <= PathCost(g, p)
    ensures start == end ==> path == [start]
  {
    ChainIsPath(g, start, dist, pred, visited, rank, tick, end);
  }

  /** When the queue empties first, `end` is unreachable and the walk back gives nothing. */
  lemma ExhaustedMeansUnreachable(g: Graph, start: Vertex, end: Vertex, dist: map<Vertex, real>,
                                  pred: map<Vertex, Vertex>, visited: set<Vertex>, rank: map<Vertex, nat>,
                                  tick: nat, path: seq<Vertex>)
    requires DistInv(g, start, dist, pred, visited, rank, tick)
    requires FrontierInv(dist, multiset{}, visited) && Relaxed(g, dist, visited)
    requires end !in visited
    requires path == [] <==> Chain(pred, rank, end)[0] != start
    ensures path == [] && !Reachable(g, start, end)
  {
    assert start in visited;
    NothingReachesUnvisited(g, start, end, dist, visited);
    ReachableRefl(g, start);
    assert end !in dist by {
      forall v | v in dist
        ensures Reachable(g, start, v)
      {
        ChainIsPath(g, start, dist, pred, visited, rank, tick, v);
      }
    }
  }

  /**
   * The poll at GUI.java:35: removes one queued vertex of minimal distance. The ghost results
   * rank the vertex when it is visited for the first time.
   */
  method Poll(g: Graph, start: Vertex, dist: map<Vertex, real>, pred: map<Vertex, Vertex>,
              queue: multiset<Vertex>, visited: set<Vertex>, ghost rank: map<Vertex, nat>, ghost tick: nat)
    returns (current: Vertex, queue': multiset<Vertex>, ghost rank': map<Vertex, nat>, ghost tick': nat)
    requires PositiveCosts(g)
    requires SearchInv(g, start, dist, pred, queue, visited, rank, tick)
    requires queue != multiset{}
    ensures current in queue && queue' == queue - multiset{current} && |queue'| < |queue|
    ensures current in dist && forall w :: w in queue ==> dist[current] <= dist[w]
    ensures current in g.Keys + {start}
    ensures forall p :: IsPathFromTo(g, p, start, current) ==> dist[current] <= PathCost(g, p)
    ensures PolledInv(g, start, current, dist, pred, queue', visited + {current}, rank', tick', current in visited)
  {
    QueueHasMinimum(queue, dist);
    current :| current in queue && forall w :: w in queue ==> dist[current] <= dist[w];
    queue' := queue - multiset{current};
    assert queue == queue' + multiset{current};
    rank' := if current in visited then rank else rank[current := tick];
    tick' := if current in visited then tick else tick + 1;
    PollKeepsInvariants(g, start, dist, pred, queue, visited, rank, tick, current, rank', tick');
  }

  /**
   * Each round of the search either visits a new vertex of `universe` or, revisiting one,
   * leaves a shorter queue.
   */
  lemma VisitMakesProgress(universe: set<Vertex>, visited: set<Vertex>, v: Vertex,
                           queue: multiset<Vertex>, queue': multiset<Vertex>)
    requires v in universe
    requires v in visited ==> |queue'| < |queue|
    ensures |universe - (visited + {v})| < |universe - visited|
            || (|universe - (visited + {v})| == |universe - visited| && |queue'| < |queue|)
  {
    if v in visited {
      assert visited + {v} == visited;
    } else {
      var left := universe - (visited + {v});
      assert universe - visited == left + {v} && v !in left;
    }
  }

  /**
   * The search loop of GUI.dijkstra (GUI.java:34-54): polls until the queue is empty or `end`
   * is polled. `found` tells which; in either case the invariants describe the final maps.
   */
  method Search(g: Graph, start: Vertex, end: Vertex)
    returns (found: bool, dist: map<Vertex, real>, pred: map<Vertex, Vertex>, visited: set<Vertex>,
             ghost rank: map<Vertex, nat>, ghost tick: nat)
    requires DestinationsAreKeys(g)
    requires PositiveCosts(g)
    ensures DistInv(g, start, dist, pred, visited, rank, tick) && end !in visited
    ensures found ==> end in dist && forall p :: IsPathFromTo(g, p, start, end) ==> dist[end] <= PathCost(g, p)
    ensures !found ==> FrontierInv(dist, multiset{}, visited) && Relaxed(g, dist, visited)
  {
    dist, pred, visited := map[start := 0.0], map[], {};
    var queue: multiset<Vertex> := multiset{start};
    rank, tick := map[], 0;
    found := false;
    ghost var universe := g.Keys + {start};

    while queue != multiset{}
      invariant SearchInv(g, start, dist, pred, queue, visited, rank, tick)
      invariant end !in visited && !found
      decreases |universe - visited|, |queue|
    {
      ghost var visited0, queue0 := visited, queue;
      var current;
      ghost var rank', tick';
      current, queue, rank', tick' := Poll(g, start, dist, pred, queue, visited, rank, tick);
      if current == end {
        found := true;
        break;
      }
      ghost var wasVisited := current in visited;
      rank, tick := rank', tick';
      visited := visited + {current};
      dist, pred, queue := RelaxNeighbours(g, start, current, dist, pred, queue, visited, rank, tick, wasVisited);
      VisitMakesProgress(universe, visited0, current, queue0, queue);
    }
  }

  /**
   * GUI.dijkstra. Returns a cheapest path from `start` to `end`, or the empty list exactly when
   * `end` cannot be reached.
   */
  method Dijkstra(g: Graph, start: Vertex, end: Vertex) returns (path: seq<Vertex>)
    requires DestinationsAreKeys(g)
    requires PositiveCosts(g)
    ensures path != [] <==> Reachable(g, start, end)
    ensures path != [] ==> IsPathFromTo(g, path, start, end)
    ensures path != [] ==> forall p :: IsPathFromTo(g, p, start, end) ==> PathCost(g, path) <= PathCost(g, p)
    ensures start == end ==> path == [start]
  {
    var found, dist, pred, visited, rank, tick := Search(g, start, end);
    path := BuildPath(pred, start, end, rank);
    if found {
      FoundPathIsShortest(g, start, end, dist, pred, visited, rank, tick, path);
    } else {
      ExhaustedMeansUnreachable(g, start, end, dist, pred, visited, rank, tick, path);
    }
  }
}
