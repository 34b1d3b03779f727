/** The co-star graph of HT_ca5.cpp: `struct Graph`, `addEdge` and the
    edge-building loop of `main` (HT_ca5.cpp:217-229). */
module Graphs {
  import opened Wrappers

  /** Actor -> (co-actor -> title id), the type of `Graph::adjList`. */
  type Adjacency = map<string, map<string, string>>

  /** The label stored for the directed entry a -> b, if there is one. */
  function Entry(adj: Adjacency, a: string, b: string): Option<string>
  {
    if a in adj && b in adj[a] then Some(adj[a][b]) else None
  }

  /** Both directions of every entry carry the same label. */
  ghost predicate Symmetric(adj: Adjacency)
  {
    forall a, b :: Entry(adj, a, b) == Entry(adj, b, a)
  }

  /** Every neighbour has an adjacency entry of its own, so `adjList.at`
      cannot fail on a node reached through an edge. */
  ghost predicate Closed(adj: Adjacency)
  {
    forall a, b :: Entry(adj, a, b).Some? ==> b in adj
  }

  lemma SymmetricIsClosed(adj: Adjacency)
    requires Symmetric(adj)
    ensures Closed(adj)
  {
    forall a, b | Entry(adj, a, b).Some? ensures b in adj {
      assert Entry(adj, b, a).Some?;
    }
  }

  /** `a` and `b` both appear in the member set of title `t`. */
  ghost predicate CoMembers(titleToActors: map<string, set<string>>, t: string, a: string, b: string)
  {
    t in titleToActors && a in titleToActors[t] && b in titleToActors[t]
  }

  /** Every edge joins two distinct actors and is labelled with a title
      both of them belong to. */
  ghost predicate EdgesShared(adj: Adjacency, titleToActors: map<string, set<string>>)
  {
    forall a, b :: Entry(adj, a, b).Some? ==> a != b && CoMembers(titleToActors, Entry(adj, a, b).value, a, b)
  }

  /** Every key of the adjacency map is a member of some title. */
  ghost predicate KeysAreMembers(adj: Adjacency, titleToActors: map<string, set<string>>)
  {
    forall a :: a in adj ==> exists t :: t in titleToActors && a in titleToActors[t]
  }

  /** Every key of the adjacency map has at least one neighbour. */
  ghost predicate NoEmptyRows(adj: Adjacency)
  {
    forall a :: a in adj ==> exists b :: Entry(adj, a, b).Some?
  }

  /** Every pair of distinct members of a title of `done` is joined. */
  ghost predicate Covers(adj: Adjacency, titleToActors: map<string, set<string>>, done: set<string>)
  {
    forall t, a, b :: t in done && CoMembers(titleToActors, t, a, b) && a != b ==> Entry(adj, a, b).Some?
  }

  /** What every edge insertion of the building loop keeps. */
  ghost predicate WellBuilt(adj: Adjacency, titleToActors: map<string, set<string>>)
  {
    Symmetric(adj) && EdgesShared(adj, titleToActors) && KeysAreMembers(adj, titleToActors) && NoEmptyRows(adj)
  }

  class Graph {
    var adjList: Adjacency

    constructor ()
      ensures adjList == map[]
    {
      adjList := map[];
    }

    /** `addEdge(graph, actor1, actor2, movieTitleId)`: both directions of
        the edge get the label (overwriting a previous one), the two actors
        become keys, and no other entry changes. */
    method AddEdge(actor1: string, actor2: string, movieTitleId: string)
      modifies this
      ensures Entry(adjList, actor1, actor2) == Some(movieTitleId)
      ensures Entry(adjList, actor2, actor1) == Some(movieTitleId)
      ensures adjList.Keys == old(adjList.Keys) + {actor1, actor2}
      ensures forall a, b :: !((a == actor1 && b == actor2) || (a == actor2 && b == actor1)) ==>
        Entry(adjList, a, b) == Entry(old(adjList), a, b)
    {
      ghost var start := adjList;
      // adjList[actor1][actor2] = movieTitleId, creating the row on first use
      var row1 := if actor1 in adjList then adjList[actor1] else map[];
      adjList := adjList[actor1 := row1[actor2 := movieTitleId]];
      SetEntryEffect(start, actor1, actor2, movieTitleId, adjList);
      ghost var middle := adjList;
      // adjList[actor2][actor1] = movieTitleId
      var row2 := if actor2 in adjList then adjList[actor2] else map[];
      adjList := adjList[actor2 := row2[actor1 := movieTitleId]];
      SetEntryEffect(middle, actor2, actor1, movieTitleId, adjList);
    }
  }

  /** One `adj[a][b] = v` assignment: it sets that entry, makes `a` a key
      and leaves every other entry as it was. */
  lemma SetEntryEffect(adj: Adjacency, a: string, b: string, v: string, after: Adjacency)
    requires after == adj[a := (if a in adj then adj[a] else map[])[b := v]]
    ensures Entry(after, a, b) == Some(v)
    ensures after.Keys == adj.Keys + {a}
    ensures forall x, y :: (x != a || y != b) ==> Entry(after, x, y) == Entry(adj, x, y)
  {
  }

  /** What one `addEdge(a1, a2, t)` did to the map: both directions hold
      `t`, the two actors are keys, and every other entry is unchanged. */
  ghost predicate AddedEdge(before: Adjacency, after: Adjacency, t: string, a1: string, a2: string)
  {
    && Entry(after, a1, a2) == Some(t) && Entry(after, a2, a1) == Some(t)
    && after.Keys == before.Keys + {a1, a2}
    && forall a, b :: !((a == a1 && b == a2) || (a == a2 && b == a1)) ==> Entry(after, a, b) == Entry(before, a, b)
  }

  lemma AddEdgeKeepsSymmetric(before: Adjacency, after: Adjacency, t: string, a1: string, a2: string)
    requires Symmetric(before) && AddedEdge(before, after, t, a1, a2)
    ensures Symmetric(after)
  {
    forall a, b ensures Entry(after, a, b) == Entry(after, b, a) {
      if !((a == a1 && b == a2) || (a == a2 && b == a1)) {
        assert Entry(after, b, a) == Entry(before, b, a);
      }
    }
  }

  lemma AddEdgeKeepsShared(before: Adjacency, after: Adjacency, titleToActors: map<string, set<string>>,
                           t: string, a1: string, a2: string)
    requires EdgesShared(before, titleToActors) && AddedEdge(before, after, t, a1, a2)
    requires a1 != a2 && CoMembers(titleToActors, t, a1, a2)
    ensures EdgesShared(after, titleToActors)
  {
    forall a, b | Entry(after, a, b).Some?
      ensures a != b && CoMembers(titleToActors, Entry(after, a, b).value, a, b)
    {
      if !((a == a1 && b == a2) || (a == a2 && b == a1)) {
        assert Entry(after, a, b) == Entry(before, a, b);
      }
    }
  }

  lemma AddEdgeKeepsRows(before: Adjacency, after: Adjacency, t: string, a1: string, a2: string)
    requires NoEmptyRows(before) && AddedEdge(before, after, t, a1, a2)
    ensures NoEmptyRows(after)
  {
    forall a | a in after ensures exists b :: Entry(after, a, b).Some? {
      if a == a1 {
        assert Entry(after, a, a2).Some?;
      } else if a == a2 {
        assert Entry(after, a, a1).Some?;
      } else {
        var b :| Entry(before, a, b).Some?;
        assert Entry(after, a, b).Some?;
      }
    }
  }

  lemma AddEdgeKeepsMembers(before: Adjacency, after: Adjacency, titleToActors: map<string, set<string>>,
                            t: string, a1: string, a2: string)
    requires KeysAreMembers(before, titleToActors) && AddedEdge(before, after, t, a1, a2)
    requires CoMembers(titleToActors, t, a1, a2)
    ensures KeysAreMembers(after, titleToActors)
  {
    forall a | a in after ensures exists t' :: t' in titleToActors && a in titleToActors[t'] {
      if a == a1 || a == a2 {
        assert t in titleToActors && a in titleToActors[t];
      }
    }
  }

  /** One `addEdge` between two distinct members of one title preserves
      what the building loop keeps, and it removes no edge. */
  lemma AddEdgeKeeps(before: Adjacency, after: Adjacency, titleToActors: map<string, set<string>>,
                     t: string, a1: string, a2: string)
    requires WellBuilt(before, titleToActors)
    requires a1 != a2 && CoMembers(titleToActors, t, a1, a2)
    requires AddedEdge(before, after, t, a1, a2)
    ensures WellBuilt(after, titleToActors)
    ensures forall a, b :: Entry(before, a, b).Some? ==> Entry(after, a, b).Some?
  {
    AddEdgeKeepsSymmetric(before, after, t, a1, a2);
    AddEdgeKeepsShared(before, after, titleToActors, t, a1, a2);
    AddEdgeKeepsRows(before, after, t, a1, a2);
    AddEdgeKeepsMembers(before, after, titleToActors, t, a1, a2);
  }

  /** The loop of HT_ca5.cpp:217-229: for each title, an edge labelled with
      it between every two distinct members (`it2` starts at `next(it)`).
      Sets are enumerated in no particular order, so when two actors share
      several titles the surviving label is some title they share. */
  method BuildGraph(titleToActors: map<string, set<string>>) returns (graph: Graph)
    ensures fresh(graph)
    ensures Symmetric(graph.adjList)
    ensures forall a, b :: Entry(graph.adjList, a, b).Some? <==>
      a != b && exists t :: CoMembers(titleToActors, t, a, b)
    ensures forall a, b :: Entry(graph.adjList, a, b).Some? ==>
      CoMembers(titleToActors, Entry(graph.adjList, a, b).value, a, b)
    ensures forall a :: a in graph.adjList ==> exists t :: t in titleToActors && a in titleToActors[t]
    ensures forall a :: a in graph.adjList ==> exists b :: Entry(graph.adjList, a, b).Some?
  {
    graph := new Graph();
    var titles := titleToActors.Keys;
    while titles != {}
      invariant titles <= titleToActors.Keys
      invariant WellBuilt(graph.adjList, titleToActors)
      invariant Covers(graph.adjList, titleToActors, titleToActors.Keys - titles)
      decreases titles
    {
      var titleId :| titleId in titles;
      var actors := titleToActors[titleId];
      var outer := actors;   // the members `it` has not reached yet
      while outer != {}
        invariant outer <= actors
        invariant WellBuilt(graph.adjList, titleToActors)
        invariant Covers(graph.adjList, titleToActors, titleToActors.Keys - titles)
        invariant forall a, b :: a in actors && b in actors && a != b && a !in outer ==> Entry(graph.adjList, a, b).Some?
        decreases outer
      {
        var a1 :| a1 in outer;
        outer := outer - {a1};
        var inner := outer;  // the members after `it` that `it2` has not reached yet
        while inner != {}
          invariant inner <= outer
          invariant WellBuilt(graph.adjList, titleToActors)
          invariant Covers(graph.adjList, titleToActors, titleToActors.Keys - titles)
          invariant forall a, b :: a in actors && b in actors && a != b && a !in outer && a != a1 ==> Entry(graph.adjList, a, b).Some?
          invariant forall b :: b in outer && b !in inner ==> Entry(graph.adjList, a1, b).Some?
          decreases inner
        {
          var a2 :| a2 in inner;
          inner := inner - {a2};
          ghost var before := graph.adjList;
          graph.AddEdge(a1, a2, titleId);
          AddEdgeKeeps(before, graph.adjList, titleToActors, titleId, a1, a2);
        }
        forall a, b | a in actors && b in actors && a != b && a !in outer
          ensures Entry(graph.adjList, a, b).Some?
        {
          if a == a1 && b !in outer {
            assert Entry(graph.adjList, b, a).Some?;
          }
        }
      }
      titles := titles - {titleId};
    }
    ghost var adj := graph.adjList;
    forall a, b | Entry(adj, a, b).Some? ensures a != b && exists t :: CoMembers(titleToActors, t, a, b) {
      assert CoMembers(titleToActors, Entry(adj, a, b).value, a, b);
    }
  }
}
