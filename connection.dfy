/** The pipeline of `main` (HT_ca5.cpp:187-236) without its file and
    console I/O: index the parsed actor records by title, build the co-star
    graph, and search it from the start actor to the end actor. */
module Connection {
  import opened Wrappers
  import opened TitleIndex
  import opened Graphs
  import opened Search

  /** Two distinct actors whose records list a common title. */
  ghost predicate CoStars(actors: seq<Actor>, a: string, b: string)
  {
    a != b && exists t :: Lists(actors, a, t) && Lists(actors, b, t)
  }

  /** A chain of actors in which each one co-stars with the next. */
  ghost predicate CoStarChain(actors: seq<Actor>, w: seq<string>, s: string, t: string)
  {
    |w| > 0 && w[0] == s && w[|w| - 1] == t &&
    forall i :: 0 <= i < |w| - 1 ==> CoStars(actors, w[i], w[i + 1])
  }

  /** In the graph built from the index of `actors`, an edge joins exactly
      the pairs of co-stars. */
  lemma EdgesAreCoStars(actors: seq<Actor>, titleToActors: map<string, set<string>>, adj: Adjacency)
    requires forall t, name :: (t in titleToActors && name in titleToActors[t]) <==> Lists(actors, name, t)
    requires forall a, b :: Entry(adj, a, b).Some? <==> a != b && exists t :: CoMembers(titleToActors, t, a, b)
    ensures forall a, b :: Entry(adj, a, b).Some? <==> CoStars(actors, a, b)
  {
    forall a, b ensures Entry(adj, a, b).Some? <==> CoStars(actors, a, b) {
      if CoStars(actors, a, b) {
        var t :| Lists(actors, a, t) && Lists(actors, b, t);
        assert CoMembers(titleToActors, t, a, b);
      }
      if Entry(adj, a, b).Some? {
        var t :| CoMembers(titleToActors, t, a, b);
        assert Lists(actors, a, t) && Lists(actors, b, t);
      }
    }
  }

  /** Walks of such a graph are co-star chains and conversely. */
  lemma WalksAreChains(actors: seq<Actor>, adj: Adjacency, s: string, t: string)
    requires forall a, b :: Entry(adj, a, b).Some? <==> CoStars(actors, a, b)
    ensures forall w :: WalkBetween(adj, w, s, t) <==> CoStarChain(actors, w, s, t)
  {
  }

  /** An actor with an adjacency entry co-stars with someone. */
  lemma KeyHasCoStar(actors: seq<Actor>, adj: Adjacency, a: string)
    requires forall a, b :: Entry(adj, a, b).Some? <==> CoStars(actors, a, b)
    requires forall a :: a in adj ==> exists b :: Entry(adj, a, b).Some?
    requires a in adj
    ensures exists b :: CoStars(actors, a, b)
  {
    var b :| Entry(adj, a, b).Some?;
    assert CoStars(actors, a, b);
  }

  /** Each hop of a linked path in the built graph joins two distinct actors
      through a title both of them list. */
  lemma HopsShareTitles(actors: seq<Actor>, titleToActors: map<string, set<string>>, adj: Adjacency, path: seq<Step>)
    requires forall t, name :: (t in titleToActors && name in titleToActors[t]) <==> Lists(actors, name, t)
    requires forall a, b :: Entry(adj, a, b).Some? ==> a != b && CoMembers(titleToActors, Entry(adj, a, b).value, a, b)
    requires Linked(adj, path)
    ensures forall i :: 0 < i < |path| ==>
      && path[i - 1].actor != path[i].actor
      && Lists(actors, path[i - 1].actor, path[i].titleId)
      && Lists(actors, path[i].actor, path[i].titleId)
  {
    forall i | 0 < i < |path|
      ensures && path[i - 1].actor != path[i].actor
              && Lists(actors, path[i - 1].actor, path[i].titleId)
              && Lists(actors, path[i].actor, path[i].titleId)
    {
      assert Entry(adj, path[i - 1].actor, path[i].actor) == Some(path[i].titleId);
      assert CoMembers(titleToActors, path[i].titleId, path[i - 1].actor, path[i].actor);
    }
  }

  /** What the contracts of `BuildTitleIndex` and `BuildGraph` give about
      one query: the start actor has an adjacency entry exactly when it
      co-stars with someone, and walks between the two actors are exactly
      the co-star chains between them. */
  lemma GraphMeaning(actors: seq<Actor>, titleToActors: map<string, set<string>>, adj: Adjacency,
                     startActor: string, endActor: string)
    requires forall t, name :: (t in titleToActors && name in titleToActors[t]) <==> Lists(actors, name, t)
    requires forall a, b :: Entry(adj, a, b).Some? <==> a != b && exists t :: CoMembers(titleToActors, t, a, b)
    requires forall a :: a in adj ==> exists b :: Entry(adj, a, b).Some?
    ensures startActor in adj <==> exists b :: CoStars(actors, startActor, b)
    ensures forall w :: WalkBetween(adj, w, startActor, endActor) <==> CoStarChain(actors, w, startActor, endActor)
  {
    EdgesAreCoStars(actors, titleToActors, adj);
    if startActor in adj {
      KeyHasCoStar(actors, adj, startActor);
    }
    WalksAreChains(actors, adj, startActor, endActor);
  }

  /** On a symmetric graph `at(current)` can fail only on the start actor. */
  lemma OutOfRangeOnlyAtStart(adj: Adjacency, startActor: string, endActor: string, r: BfsResult)
    requires Symmetric(adj)
    requires r.OutOfRange? ==> startActor != endActor && (startActor !in adj || !Closed(adj))
    ensures r.OutOfRange? ==> startActor != endActor && startActor !in adj
  {
    SymmetricIsClosed(adj);
  }

  /** The answer of a query for `startActor` and `endActor`, stated over
      the actor records. The same actor gives the empty path.
      `out_of_range` happens exactly when the two actors differ and the
      start actor co-stars with nobody. A non-empty path is a co-star chain
      from start to end, each hop joining two distinct actors through a
      title both list, and no chain is shorter. An empty path for distinct
      actors means that no chain exists. */
  ghost predicate ConnectionAnswer(actors: seq<Actor>, startActor: string, endActor: string, r: BfsResult)
  {
    && (startActor == endActor ==> r == Returned([]))
    && (r.OutOfRange? <==> startActor != endActor && forall b :: !CoStars(actors, startActor, b))
    && (r.Returned? && r.path != [] ==>
          && r.path[0] == Step(startActor, "") && r.path[|r.path| - 1].actor == endActor
          && (forall i :: 0 < i < |r.path| ==>
                && r.path[i - 1].actor != r.path[i].actor
                && Lists(actors, r.path[i - 1].actor, r.path[i].titleId)
                && Lists(actors, r.path[i].actor, r.path[i].titleId))
          && forall w :: CoStarChain(actors, w, startActor, endActor) ==> |r.path| <= |w|)
    && (r.Returned? && r.path == [] && startActor != endActor ==>
          forall w :: !CoStarChain(actors, w, startActor, endActor))
  }

  /** What the contracts of the three stages give together: the answer of
      `Bfs` on the graph built from the index of `actors`, restated in
      terms of the actor records. */
  lemma QueryAnswer(actors: seq<Actor>, titleToActors: map<string, set<string>>, adj: Adjacency,
                    startActor: string, endActor: string, r: BfsResult)
    requires forall t, name :: (t in titleToActors && name in titleToActors[t]) <==> Lists(actors, name, t)
    requires Symmetric(adj)
    requires forall a, b :: Entry(adj, a, b).Some? <==> a != b && exists t :: CoMembers(titleToActors, t, a, b)
    requires forall a, b :: Entry(adj, a, b).Some? ==> CoMembers(titleToActors, Entry(adj, a, b).value, a, b)
    requires forall a :: a in adj ==> exists b :: Entry(adj, a, b).Some?
    requires BfsAnswer(adj, startActor, endActor, r)
    ensures ConnectionAnswer(actors, startActor, endActor, r)
  {
    GraphMeaning(actors, titleToActors, adj, startActor, endActor);
    OutOfRangeOnlyAtStart(adj, startActor, endActor, r);
    if r.Returned? {
      HopsShareTitles(actors, titleToActors, adj, r.path);
    }
  }

  /** The query `bfs(graph, startActor, endActor)` on the graph that `main`
      builds from `actors`: index, graph and search together give a
      `ConnectionAnswer`. */
  method FindConnection(actors: seq<Actor>, startActor: string, endActor: string) returns (r: BfsResult)
    ensures ConnectionAnswer(actors, startActor, endActor, r)
  {
    var titleToActors := BuildTitleIndex(actors);
    var graph := BuildGraph(titleToActors);
    var adj := graph.adjList;
    r := Bfs(adj, startActor, endActor);
    QueryAnswer(actors, titleToActors, adj, startActor, endActor, r);
  }

  /** A co-star chain read backwards is a co-star chain. */
  lemma ReverseChain(actors: seq<Actor>, w: seq<string>, s: string, t: string)
    requires CoStarChain(actors, w, s, t)
    ensures CoStarChain(actors, Reverse(w), t, s)
  {
    var r := Reverse(w);
    forall i | 0 <= i < |r| - 1 ensures CoStars(actors, r[i], r[i + 1]) {
      assert r[i] == w[|w| - 1 - i] && r[i + 1] == w[|w| - 2 - i];
      assert CoStars(actors, w[|w| - 2 - i], w[|w| - 1 - i]);
      var k :| Lists(actors, w[|w| - 2 - i], k) && Lists(actors, w[|w| - 1 - i], k);
    }
  }

  /** The path of a found connection, read actor by actor, is a co-star
      chain. */
  lemma FoundIsChain(actors: seq<Actor>, startActor: string, endActor: string, r: BfsResult)
    requires ConnectionAnswer(actors, startActor, endActor, r)
    requires r.Returned? && r.path != []
    ensures CoStarChain(actors, Actors(r.path), startActor, endActor)
  {
    var w := Actors(r.path);
    forall i | 0 <= i < |w| - 1 ensures CoStars(actors, w[i], w[i + 1]) {
      assert Lists(actors, r.path[i].actor, r.path[i + 1].titleId);
      assert Lists(actors, r.path[i + 1].actor, r.path[i + 1].titleId);
    }
  }

  /** Degree symmetry of the query: when a connection from `a` to `b` is
      found, the query from `b` to `a` finds one too, with the same number
      of steps. */
  lemma ChainDegreeSymmetric(actors: seq<Actor>, a: string, b: string, r1: BfsResult, r2: BfsResult)
    requires ConnectionAnswer(actors, a, b, r1) && ConnectionAnswer(actors, b, a, r2)
    ensures r1.Returned? && r1.path != [] ==> r2.Returned? && r2.path != [] && |r1.path| == |r2.path|
  {
    if r1.Returned? && r1.path != [] {
      var w1 := Actors(r1.path);
      FoundIsChain(actors, a, b, r1);
      ReverseChain(actors, w1, a, b);
      assert |w1| >= 2;
      var k :| Lists(actors, w1[|w1| - 2], k) && Lists(actors, b, k);
      assert CoStars(actors, b, w1[|w1| - 2]);
      assert r2.Returned? && r2.path != [];
      var w2 := Actors(r2.path);
      FoundIsChain(actors, b, a, r2);
      ReverseChain(actors, w2, b, a);
    }
  }
}
