/**
 * The grouping of pages the GUI shows at start-up (GUI.java:121-144): a depth-first search
 * along outgoing edges from each not yet visited source page collects one set of pages.
 * The search follows edges forwards only, so a group holds what its root reaches and no one
 * found earlier; when every edge has its reverse the groups are the connected components.
 */
module DisjointSets {
  import opened Graphs

  /** Every edge leaving a member of `s` ends in `s`. */
  ghost predicate Closed(g: Graph, s: set<Vertex>)
  {
    forall u, w :: u in s && HasEdge(g, u, w) ==> w in s
  }

  /** Every edge has its reverse. */
  ghost predicate Symmetric(g: Graph)
  {
    forall u, w :: HasEdge(g, u, w) ==> HasEdge(g, w, u)
  }

  /**
   * GUI.depthFirstSearchCollect. Marks `v` and every vertex it reaches through vertices not yet
   * visited, adding each to `members`. `visited` and `members` are the caller's sets, returned updated.
   */
  method Collect(g: Graph, v: Vertex, visited: set<Vertex>, members: set<Vertex>)
    returns (visited': set<Vertex>, members': set<Vertex>)
    requires v in Vertices(g) && v !in visited && visited <= Vertices(g)
    ensures visited + {v} <= visited' <= Vertices(g)
    ensures members' == members + (visited' - visited)
    ensures forall u :: u in visited' - visited ==> Reachable(g, v, u)
    ensures forall u, w :: u in visited' - visited && HasEdge(g, u, w) ==> w in visited'
    decreases Vertices(g) - visited
  {
    visited' := visited + {v};
    members' := members + {v};
    ReachableRefl(g, v);
    var neighbours: set<Vertex> := if v in g then g[v].Keys else {};
    var todo := neighbours;
    while todo != {}
      invariant todo <= neighbours
      invariant visited + {v} <= visited' <= Vertices(g)
      invariant members' == members + (visited' - visited)
      invariant forall u :: u in visited' - visited ==> Reachable(g, v, u)
      invariant forall u, w :: u in visited' - visited && u != v && HasEdge(g, u, w) ==> w in visited'
      invariant forall w :: w in neighbours - todo ==> w in visited'
      decreases todo
    {
      var nb :| nb in todo;
      todo := todo - {nb};
      if nb !in visited' {
        assert nb in Destinations(g);
        ghost var before := visited';
        visited', members' := Collect(g, nb, visited', members');
        forall u | u in visited' - before
          ensures Reachable(g, v, u)
        {
          ReachablePrepend(g, v, nb, u);
        }
      }
    }
  }

  /** The groups are non-empty, pairwise disjoint, and together hold exactly `covered`. */
  ghost predicate Partition(groups: set<set<Vertex>>, covered: set<Vertex>)
  {
    && (forall s :: s in groups ==> s != {})
    && (forall s, t :: s in groups && t in groups && s != t ==> s !! t)
    && (forall x :: x in covered <==> exists s :: s in groups && x in s)
  }

  /** Each group has a source page in it that reaches every member. */
  ghost predicate Rooted(g: Graph, groups: set<set<Vertex>>)
  {
    forall s :: s in groups ==> exists r :: r in s && r in g && forall x :: x in s ==> Reachable(g, r, x)
  }

  /** The vertices of the groups in `order`. */
  ghost predicate Covers(order: seq<set<Vertex>>, covered: set<Vertex>)
  {
    forall x :: x in covered <==> exists j :: 0 <= j < |order| && x in order[j]
  }

  /** Every edge leaving a group ends in that group or in one found before it. */
  ghost predicate ClosedInOrder(g: Graph, order: seq<set<Vertex>>)
  {
    forall k, u, w :: 0 <= k < |order| && u in order[k] && HasEdge(g, u, w) ==>
      exists j :: 0 <= j <= k && w in order[j]
  }

  /**
   * GUI.findDisjointSets. Runs Collect from every source page not yet visited; each run's
   * set is one group. `order` lists the groups in the order they were found: a group holds
   * everything its members reach outside the groups found before it.
   */
  method FindDisjointSets(g: Graph) returns (groups: set<set<Vertex>>, ghost order: seq<set<Vertex>>)
    ensures Partition(groups, Vertices(g))
    ensures Rooted(g, groups)
    ensures forall s :: s in groups <==> s in order
    ensures ClosedInOrder(g, order)
    ensures Symmetric(g) ==> forall s :: s in groups ==> Closed(g, s)
    ensures Symmetric(g) ==> forall s, x, y :: s in groups && x in s && Reachable(g, x, y) ==> y in s
  {
    var visited: set<Vertex> := {};
    groups := {};
    order := [];
    var todo := g.Keys;
    while todo != {}
      invariant todo <= g.Keys
      invariant visited <= Vertices(g)
      invariant g.Keys - todo <= visited
      invariant Closed(g, visited)
      invariant Partition(groups, visited)
      invariant Rooted(g, groups)
      invariant Symmetric(g) ==> forall s :: s in groups ==> Closed(g, s)
      invariant forall s :: s in groups <==> s in order
      invariant Covers(order, visited) && ClosedInOrder(g, order)
      decreases todo
    {
      var vertex :| vertex in todo;
      todo := todo - {vertex};
      if vertex !in visited {
        var newSet: set<Vertex> := {};
        ghost var before := visited;
        visited, newSet := Collect(g, vertex, visited, newSet);
        AddGroup(g, groups, before, visited, newSet, vertex);
        OrderStep(g, order, before, visited, newSet);
        groups := groups + {newSet};
        order := order + [newSet];
      }
    }
    KeysCoverVertices(g, visited);
    if Symmetric(g) {
      ClosedGroupsAreComponents(g, groups);
    }
  }

  /** A closed set holding every source page holds every page. */
  lemma KeysCoverVertices(g: Graph, s: set<Vertex>)
    requires g.Keys <= s && Closed(g, s)
    ensures Vertices(g) <= s
  {
    forall x | x in Vertices(g)
      ensures x in s
    {
      if x !in g {
        var u :| u in g && x in g[u];
        assert HasEdge(g, u, x);
      }
    }
  }

  /** Groups that are each closed hold everything their members reach. */
  lemma ClosedGroupsAreComponents(g: Graph, groups: set<set<Vertex>>)
    requires forall s :: s in groups ==> Closed(g, s)
    ensures forall s, x, y :: s in groups && x in s && Reachable(g, x, y) ==> y in s
  {
    forall s, x, y | s in groups && x in s && Reachable(g, x, y)
      ensures y in s
    {
      ClosedHoldsReachable(g, s, x, y);
    }
  }

  /** Adding the set a run of Collect returns keeps the invariants of the group search. */
  lemma AddGroup(g: Graph, groups: set<set<Vertex>>, before: set<Vertex>, after: set<Vertex>,
                 newSet: set<Vertex>, root: Vertex)
    requires root in g && root in newSet
    requires newSet == after - before && before <= after
    requires Closed(g, before)
    requires forall u :: u in newSet ==> Reachable(g, root, u)
    requires forall u, w :: u in newSet && HasEdge(g, u, w) ==> w in after
    requires Partition(groups, before) && Rooted(g, groups)
    requires Symmetric(g) ==> forall s :: s in groups ==> Closed(g, s)
    ensures Closed(g, after)
    ensures Partition(groups + {newSet}, after) && Rooted(g, groups + {newSet})
    ensures Symmetric(g) ==> forall s :: s in groups + {newSet} ==> Closed(g, s)
  {
    PartitionAdd(groups, before, after, newSet);
    assert Rooted(g, groups + {newSet}) by {
      forall s | s in groups + {newSet}
        ensures exists r :: r in s && r in g && forall x :: x in s ==> Reachable(g, r, x)
      {
        if s == newSet {
          assert root in s && root in g && forall x :: x in s ==> Reachable(g, root, x);
        }
      }
    }
    if Symmetric(g) {
      forall u, w | u in newSet && HasEdge(g, u, w)
        ensures w in newSet
      {
        assert HasEdge(g, w, u);
      }
    }
  }

  /** Appending the set a run of Collect returns keeps the groups closed in the order found. */
  lemma OrderStep(g: Graph, order: seq<set<Vertex>>, before: set<Vertex>, after: set<Vertex>, newSet: set<Vertex>)
    requires Covers(order, before) && ClosedInOrder(g, order)
    requires newSet == after - before && before <= after
    requires forall u, w :: u in newSet && HasEdge(g, u, w) ==> w in after
    ensures Covers(order + [newSet], after) && ClosedInOrder(g, order + [newSet])
  {
    var order' := order + [newSet];
    forall x | x in after
      ensures exists j :: 0 <= j < |order'| && x in order'[j]
    {
      if x in before {
        var j :| 0 <= j < |order| && x in order[j];
        assert order'[j] == order[j];
      } else {
        assert order'[|order|] == newSet;
      }
    }
    forall x, j | 0 <= j < |order'| && x in order'[j]
      ensures x in after
    {
      if j < |order| {
        assert order'[j] == order[j];
      }
    }
    forall k, u, w | 0 <= k < |order'| && u in order'[k] && HasEdge(g, u, w)
      ensures exists j :: 0 <= j <= k && w in order'[j]
    {
      if k < |order| {
        assert order'[k] == order[k];
        var j :| 0 <= j <= k && w in order[j];
        assert order'[j] == order[j];
      } else if w in before {
        var j :| 0 <= j < |order| && w in order[j];
        assert order'[j] == order[j];
      } else {
        assert order'[k] == newSet;
      }
    }
  }

  /** A non-empty set of new vertices extends a partition of the old ones to one of all of them. */
  lemma PartitionAdd(groups: set<set<Vertex>>, before: set<Vertex>, after: set<Vertex>, newSet: set<Vertex>)
    requires Partition(groups, before)
    requires newSet == after - before && before <= after && newSet != {}
    ensures Partition(groups + {newSet}, after)
  {
    forall s | s in groups
      ensures s !! newSet && s != newSet
    {
      assert forall x :: x in s ==> x in before;
    }
    forall x | x in after
      ensures exists s :: s in groups + {newSet} && x in s
    {
      if x !in newSet {
        var s :| s in groups && x in s;
      }
    }
  }

  /** A closed set holds everything its members reach. */
  lemma {:induction false} ClosedHoldsReachable(g: Graph, s: set<Vertex>, x: Vertex, y: Vertex)
    requires Closed(g, s) && x in s && Reachable(g, x, y)
    ensures y in s
  {
    var p :| IsPathFromTo(g, p, x, y);
    var i := 0;
    while i < |p| - 1
      invariant 0 <= i < |p| && p[i] in s
      decreases |p| - i
    {
      assert HasEdge(g, p[i], p[i + 1]);
      i := i + 1;
    }
  }
}
