/** The breadth-first search `bfs` of HT_ca5.cpp:90-145 and its path
    reconstruction. */
module Search {
  import opened Wrappers
  import opened Graphs

  /** One element of the returned path: an actor and the title id of the
      edge that leads into it ("" for the start actor). */
  datatype Step = Step(actor: string, titleId: string)

  /** What `bfs` does: it returns a path (empty for "same actor" and for
      "no connection" alike, as the source does), or it lets
      `std::out_of_range` escape from `graph.adjList.at(current)`. */
  datatype BfsResult = Returned(path: seq<Step>) | OutOfRange

  /** A walk: a non-empty node sequence whose consecutive nodes are joined
      by an adjacency entry. */
  ghost predicate IsWalk(adj: Adjacency, w: seq<string>)
  {
    |w| > 0 && forall i :: 0 <= i < |w| - 1 ==> Entry(adj, w[i], w[i + 1]).Some?
  }

  ghost predicate WalkBetween(adj: Adjacency, w: seq<string>, s: string, t: string)
  {
    IsWalk(adj, w) && w[0] == s && w[|w| - 1] == t
  }

  /** Every step after the first is reached from its predecessor through
      an adjacency entry labelled with the step's title id. */
  ghost predicate Linked(adj: Adjacency, p: seq<Step>)
  {
    forall i :: 0 < i < |p| ==> Entry(adj, p[i - 1].actor, p[i].actor) == Some(p[i].titleId)
  }

  /** The actors of a path, in order. */
  function Actors(p: seq<Step>): (w: seq<string>)
    ensures |w| == |p| && forall i :: 0 <= i < |p| ==> w[i] == p[i].actor
  {
    if p == [] then [] else [p[0].actor] + Actors(p[1..])
  }

  lemma LinkedIsWalk(adj: Adjacency, p: seq<Step>)
    requires |p| > 0 && Linked(adj, p)
    ensures IsWalk(adj, Actors(p))
  {
    var w := Actors(p);
    forall i | 0 <= i < |w| - 1 ensures Entry(adj, w[i], w[i + 1]).Some? {
      assert Entry(adj, p[i].actor, p[i + 1].actor).Some?;
    }
  }

  /** `std::reverse` on the collected path. */
  function Reverse<T>(s: seq<T>): (r: seq<T>)
    ensures |r| == |s| && forall i :: 0 <= i < |s| ==> r[i] == s[|s| - 1 - i]
  {
    if s == [] then [] else [s[|s| - 1]] + Reverse(s[..|s| - 1])
  }

  lemma ReverseSnoc<T>(s: seq<T>, x: T)
    ensures Reverse(s + [x]) == [x] + Reverse(s)
  {
    assert (s + [x])[..|s|] == s;
  }

  /** Putting a predecessor in front of a linked path keeps it linked. */
  lemma LinkedCons(adj: Adjacency, p: string, c: string, title: string, rest: seq<Step>)
    requires Linked(adj, [Step(c, "")] + rest)
    requires Entry(adj, p, c) == Some(title)
    ensures Linked(adj, [Step(p, "")] + ([Step(c, title)] + rest))
  {
    var old_ := [Step(c, "")] + rest;
    var new_ := [Step(p, "")] + ([Step(c, title)] + rest);
    forall i | 0 < i < |new_| ensures Entry(adj, new_[i - 1].actor, new_[i].actor) == Some(new_[i].titleId) {
      if i > 1 {
        assert new_[i - 1].actor == old_[i - 2].actor && new_[i] == old_[i - 1];
      }
    }
  }

  /** The parent map of the search, with the ghost distances that rank it:
      every node of `dist` other than `start` has a parent that is in
      `dist`, joined to it by an edge, one step nearer to `start`. */
  ghost predicate ParentChain(adj: Adjacency, parent: map<string, (string, string)>,
                              dist: map<string, nat>, start: string)
  {
    && start in dist && dist[start] == 0
    && forall v :: v in dist && v != start ==>
         && v in parent && parent[v].0 in dist
         && Entry(adj, parent[v].0, v) == Some(parent[v].1)
         && dist[v] == dist[parent[v].0] + 1
  }

  /** HT_ca5.cpp:111-130: walks `parent` back from `end` to `start`,
      pushing (node, title) pairs, appends (start, "") and reverses. The
      lookups `parent[current]` and `adjList.at(parentActor)` always
      succeed and the debug branch is unreachable. */
  method ReconstructPath(adj: Adjacency, parent: map<string, (string, string)>,
                         ghost dist: map<string, nat>, start: string, end: string)
    returns (path: seq<Step>)
    requires ParentChain(adj, parent, dist, start) && end in dist
    ensures |path| == dist[end] + 1
    ensures path[0] == Step(start, "") && path[|path| - 1].actor == end
    ensures Linked(adj, path)
  {
    var collected: seq<Step> := [];
    var current := end;
    ghost var suffix: seq<Step> := [];   // Reverse(collected): the path after `current`
    while current != start
      invariant current in dist
      invariant suffix == Reverse(collected)
      invariant |collected| + dist[current] == dist[end]
      invariant Linked(adj, [Step(current, "")] + suffix)
      invariant if suffix == [] then current == end else suffix[|suffix| - 1].actor == end
      decreases dist[current]
    {
      var parentActor := parent[current].0;
      assert parentActor in adj;
      if current in adj[parentActor] {
        var movieId := adj[parentActor][current];
        ReverseSnoc(collected, Step(current, movieId));
        LinkedCons(adj, parentActor, current, movieId, suffix);
        collected := collected + [Step(current, movieId)];
        suffix := [Step(current, movieId)] + suffix;
      } else {
        // "Debug - Movie ID not found for actors": unreachable
        assert false;
      }
      current := parentActor;
    }
    ReverseSnoc(collected, Step(start, ""));
    collected := collected + [Step(start, "")];
    path := Reverse(collected);
  }

  /** Every node the adjacency map mentions, as a key or as a neighbour. */
  ghost function Nodes(adj: Adjacency): set<string>
  {
    adj.Keys + set a, b | a in adj && b in adj[a] :: b
  }

  /** No walk from `start` reaches a node of `visited` in fewer steps than
      the distance recorded for it. */
  ghost predicate DistancesMinimal(adj: Adjacency, start: string, visited: set<string>, dist: map<string, nat>)
  {
    visited <= dist.Keys &&
    forall w :: IsWalk(adj, w) && w[0] == start && w[|w| - 1] in visited ==> dist[w[|w| - 1]] <= |w| - 1
  }

  /** Every visited node nearer than `level` has all its neighbours visited. */
  ghost predicate ExpandedBelow(adj: Adjacency, visited: set<string>, dist: map<string, nat>, level: nat)
    requires visited <= dist.Keys
  {
    forall x, y :: x in visited && dist[x] < level && Entry(adj, x, y).Some? ==> y in visited
  }

  /** The heart of the optimality argument: while every node nearer than
      `level` has been expanded, a walk from `start` stays inside the
      visited set for its first `level` steps. */
  lemma {:induction false} WalkStaysVisited(adj: Adjacency, start: string, visited: set<string>,
                                            dist: map<string, nat>, level: nat, w: seq<string>)
    requires IsWalk(adj, w) && w[0] == start && start in visited
    requires DistancesMinimal(adj, start, visited, dist)
    requires ExpandedBelow(adj, visited, dist, level)
    ensures forall i :: 0 <= i < |w| && i <= level ==> w[i] in visited
  {
    if |w| > 1 {
      var k := |w| - 1;
      var prefix := w[..k];
      assert IsWalk(adj, prefix) by {
        forall i | 0 <= i < |prefix| - 1 ensures Entry(adj, prefix[i], prefix[i + 1]).Some? {
          assert prefix[i] == w[i] && prefix[i + 1] == w[i + 1];
        }
      }
      WalkStaysVisited(adj, start, visited, dist, level, prefix);
      if k <= level {
        assert w[k - 1] == prefix[k - 1] && w[k - 1] in visited;
        assert dist[w[k - 1]] <= k - 1;
        assert Entry(adj, w[k - 1], w[k]).Some?;
      }
    }
  }

  /** Discovering `v` from `p` extends the parent chain. */
  lemma ParentChainAdd(adj: Adjacency, parent: map<string, (string, string)>, dist: map<string, nat>,
                       start: string, v: string, p: string, title: string)
    requires ParentChain(adj, parent, dist, start)
    requires v !in dist && p in dist && Entry(adj, p, v) == Some(title)
    ensures ParentChain(adj, parent[v := (p, title)], dist[v := dist[p] + 1], start)
  {
  }

  lemma CardRemoveOne(universe: set<string>, visited: set<string>, x: string)
    requires x in universe && x !in visited
    ensures |universe - (visited + {x})| == |universe - visited| - 1
  {
    assert universe - visited == (universe - (visited + {x})) + {x};
  }

  /** The state of the outer loop of `bfs` (HT_ca5.cpp:104-142): the
      queue holds visited nodes in non-decreasing distance, spanning at most
      two levels; every visited node that has left the queue has all its
      neighbours visited; distances are minimal; and `end`, once visited,
      has not yet been dequeued. */
  ghost predicate Frontier(adj: Adjacency, start: string, end: string, q: seq<string>, visited: set<string>,
                           parent: map<string, (string, string)>, dist: map<string, nat>)
  {
    && start in visited && dist.Keys == visited
    && (forall i :: 0 <= i < |q| ==> q[i] in visited)
    && ParentChain(adj, parent, dist, start)
    && DistancesMinimal(adj, start, visited, dist)
    && (forall x, y :: x in visited && x !in q && Entry(adj, x, y).Some? ==> y in visited)
    && (forall i, j :: 0 <= i <= j < |q| ==> dist[q[i]] <= dist[q[j]])
    && (q != [] ==> dist[q[|q| - 1]] <= dist[q[0]] + 1)
    && (end in visited ==> end in q)
  }

  /** The state of the neighbour loop (HT_ca5.cpp:133-141) while `current`,
      at distance `level`, is being expanded and `pending` holds the
      neighbours not yet enumerated. */
  ghost predicate Expanding(adj: Adjacency, start: string, end: string, current: string, level: nat,
                            pending: set<string>, q: seq<string>, visited: set<string>,
                            parent: map<string, (string, string)>, dist: map<string, nat>)
  {
    && current in adj && pending <= adj[current].Keys
    && start in visited && dist.Keys == visited
    && current in visited && dist[current] == level && current != end
    && (forall i :: 0 <= i < |q| ==> q[i] in visited)
    && ParentChain(adj, parent, dist, start)
    && DistancesMinimal(adj, start, visited, dist)
    && (forall x, y :: x in visited && x !in q && x != current && Entry(adj, x, y).Some? ==> y in visited)
    && (forall y :: y in adj[current] && y !in pending ==> y in visited)
    && (forall i, j :: 0 <= i <= j < |q| ==> dist[q[i]] <= dist[q[j]])
    && (forall i :: 0 <= i < |q| ==> level <= dist[q[i]] <= level + 1)
    && (end in visited ==> end in q)
  }

  /** The initial state: `q.push(startActor); visited.insert(startActor)`. */
  lemma FrontierInit(adj: Adjacency, start: string, end: string)
    requires start != end
    ensures Frontier(adj, start, end, [start], {start}, map[], map[start := 0])
  {
    var dist := map[start := 0];
    forall w | IsWalk(adj, w) && w[0] == start && w[|w| - 1] in {start}
      ensures dist[w[|w| - 1]] <= |w| - 1
    {
    }
  }

  /** Dequeuing a node other than `end` that has an adjacency entry starts
      its expansion with no neighbour enumerated yet. */
  lemma DequeueStep(adj: Adjacency, start: string, end: string, q: seq<string>, visited: set<string>,
                    parent: map<string, (string, string)>, dist: map<string, nat>)
    requires Frontier(adj, start, end, q, visited, parent, dist)
    requires q != [] && q[0] != end && q[0] in adj
    ensures Expanding(adj, start, end, q[0], dist[q[0]], adj[q[0]].Keys, q[1..], visited, parent, dist)
  {
    var rest := q[1..];
    forall i, j | 0 <= i <= j < |rest| ensures dist[rest[i]] <= dist[rest[j]] {
      assert rest[i] == q[i + 1] && rest[j] == q[j + 1];
    }
    forall i | 0 <= i < |rest| ensures dist[q[0]] <= dist[rest[i]] <= dist[q[0]] + 1 {
      assert rest[i] == q[i + 1];
    }
    forall x, y | x in visited && x !in rest && x != q[0] && Entry(adj, x, y).Some? ensures y in visited {
      assert forall k :: 0 < k < |q| ==> q[k] == rest[k - 1];
      assert x !in q;
    }
  }

  /** An already visited neighbour is skipped. */
  lemma SkipStep(adj: Adjacency, start: string, end: string, current: string, level: nat,
                 pending: set<string>, q: seq<string>, visited: set<string>,
                 parent: map<string, (string, string)>, dist: map<string, nat>, neighbour: string)
    requires Expanding(adj, start, end, current, level, pending, q, visited, parent, dist)
    requires neighbour in pending && neighbour in visited
    ensures Expanding(adj, start, end, current, level, pending - {neighbour}, q, visited, parent, dist)
  {
  }

  /** Enqueuing a node one level past `level` keeps the queue ordered and
      within the two levels `level` and `level + 1`. */
  lemma EnqueueKeepsOrder(q: seq<string>, dist: map<string, nat>, level: nat, neighbour: string)
    requires forall i :: 0 <= i < |q| ==> q[i] in dist
    requires neighbour !in dist
    requires forall i, j :: 0 <= i <= j < |q| ==> dist[q[i]] <= dist[q[j]]
    requires forall i :: 0 <= i < |q| ==> level <= dist[q[i]] <= level + 1
    ensures forall i, j :: 0 <= i <= j < |q + [neighbour]| ==>
      dist[neighbour := level + 1][(q + [neighbour])[i]] <= dist[neighbour := level + 1][(q + [neighbour])[j]]
    ensures forall i :: 0 <= i < |q + [neighbour]| ==>
      level <= dist[neighbour := level + 1][(q + [neighbour])[i]] <= level + 1
  {
    var dist' := dist[neighbour := level + 1];
    var q' := q + [neighbour];
    forall i | 0 <= i < |q'| ensures q'[i] in dist' && level <= dist'[q'[i]] <= level + 1 {
      if i < |q| {
        assert q'[i] == q[i];
      }
    }
    forall i, j | 0 <= i <= j < |q'| ensures dist'[q'[i]] <= dist'[q'[j]] {
      if j < |q| {
        assert q'[i] == q[i] && q'[j] == q[j];
      } else {
        assert q'[j] == neighbour;
      }
    }
  }

  /** Giving the newly discovered `neighbour` of `current` the distance
      `level + 1` keeps the distances minimal, because every node nearer
      than `level` has already been expanded. */
  lemma DiscoverMinimal(adj: Adjacency, start: string, end: string, current: string, level: nat,
                        pending: set<string>, q: seq<string>, visited: set<string>,
                        parent: map<string, (string, string)>, dist: map<string, nat>, neighbour: string)
    requires Expanding(adj, start, end, current, level, pending, q, visited, parent, dist)
    requires neighbour !in visited
    ensures DistancesMinimal(adj, start, visited + {neighbour}, dist[neighbour := level + 1])
  {
    var visited' := visited + {neighbour};
    var dist' := dist[neighbour := level + 1];
    assert ExpandedBelow(adj, visited, dist, level) by {
      forall x, y | x in visited && dist[x] < level && Entry(adj, x, y).Some? ensures y in visited {
        assert x != current;
        assert x !in q;
      }
    }
    forall w | IsWalk(adj, w) && w[0] == start && w[|w| - 1] in visited'
      ensures dist'[w[|w| - 1]] <= |w| - 1
    {
      WalkStaysVisited(adj, start, visited, dist, level, w);
    }
  }

  /** An unvisited neighbour is marked visited, given `current` as parent
      with the connecting title, and enqueued at distance `level + 1`,
      which is minimal because every node nearer than `level` has already
      been expanded. */
  lemma DiscoverStep(adj: Adjacency, start: string, end: string, current: string, level: nat,
                     pending: set<string>, q: seq<string>, visited: set<string>,
                     parent: map<string, (string, string)>, dist: map<string, nat>, neighbour: string)
    requires Expanding(adj, start, end, current, level, pending, q, visited, parent, dist)
    requires neighbour in pending && neighbour !in visited
    ensures Expanding(adj, start, end, current, level, pending - {neighbour}, q + [neighbour],
                      visited + {neighbour}, parent[neighbour := (current, adj[current][neighbour])],
                      dist[neighbour := level + 1])
  {
    var visited' := visited + {neighbour};
    var q' := q + [neighbour];
    DiscoverMinimal(adj, start, end, current, level, pending, q, visited, parent, dist, neighbour);
    ParentChainAdd(adj, parent, dist, start, neighbour, current, adj[current][neighbour]);
    EnqueueKeepsOrder(q, dist, level, neighbour);
    forall x, y | x in visited' && x !in q' && x != current && Entry(adj, x, y).Some?
      ensures y in visited'
    {
      assert x !in q;
    }
    assert q'[|q|] == neighbour;
  }

  /** When every neighbour has been enumerated, `current` counts as
      expanded and the outer state holds again. */
  lemma ExpandDone(adj: Adjacency, start: string, end: string, current: string, level: nat,
                   q: seq<string>, visited: set<string>,
                   parent: map<string, (string, string)>, dist: map<string, nat>)
    requires Expanding(adj, start, end, current, level, {}, q, visited, parent, dist)
    ensures Frontier(adj, start, end, q, visited, parent, dist)
  {
    if q != [] {
      assert level <= dist[q[0]] && dist[q[|q| - 1]] <= level + 1;
    }
  }

  /** A drained queue means every visited node is expanded, so no walk from
      `start` leaves the visited set, and `end` is not in it. */
  lemma DrainedUnreachable(adj: Adjacency, start: string, end: string, visited: set<string>,
                           parent: map<string, (string, string)>, dist: map<string, nat>)
    requires Frontier(adj, start, end, [], visited, parent, dist)
    ensures forall w :: !WalkBetween(adj, w, start, end)
  {
    forall w | IsWalk(adj, w) && w[0] == start ensures w[|w| - 1] != end {
      WalkStaysVisited(adj, start, visited, dist, |w|, w);
    }
  }

  /** What `bfs` answers for `start` and `end`. The same actor gives the
      empty path. A non-empty path runs from (start, "") to `end` through
      labelled edges, its actors form a walk, and no walk between the two is
      shorter, so its length is the minimum. An empty path for distinct
      actors means that no walk joins them. `at(current)` fails exactly
      when `start` differs from `end` and has no entry, or else only on a
      graph with a neighbour that has no entry of its own. */
  ghost predicate BfsAnswer(adj: Adjacency, start: string, end: string, r: BfsResult)
  {
    && (start == end ==> r == Returned([]))
    && (r.OutOfRange? ==> start != end && (start !in adj || !Closed(adj)))
    && (start != end && start !in adj ==> r.OutOfRange?)
    && (r.Returned? && r.path != [] ==>
          && r.path[0] == Step(start, "") && r.path[|r.path| - 1].actor == end
          && Linked(adj, r.path)
          && WalkBetween(adj, Actors(r.path), start, end)
          && forall w :: WalkBetween(adj, w, start, end) ==> |r.path| <= |w|)
    && (r.Returned? && r.path == [] && start != end ==> forall w :: !WalkBetween(adj, w, start, end))
  }

  /** Meeting `end` at the head of the queue: the reconstructed path, one
      step longer than the minimal distance of `end`, is a `BfsAnswer`. */
  lemma FoundAnswer(adj: Adjacency, start: string, end: string, visited: set<string>,
                    dist: map<string, nat>, path: seq<Step>)
    requires start != end && start in adj && end in visited
    requires DistancesMinimal(adj, start, visited, dist)
    requires |path| == dist[end] + 1 && path[0] == Step(start, "") && path[|path| - 1].actor == end
    requires Linked(adj, path)
    ensures BfsAnswer(adj, start, end, Returned(path))
  {
    LinkedIsWalk(adj, path);
  }

  /** `at(current)` failing on a visited node: either it is the start, or
      its parent has an edge to a node with no entry of its own. */
  lemma OutOfRangeAnswer(adj: Adjacency, start: string, end: string, parent: map<string, (string, string)>,
                         dist: map<string, nat>, current: string)
    requires start != end && ParentChain(adj, parent, dist, start)
    requires current in dist && current !in adj
    ensures BfsAnswer(adj, start, end, OutOfRange)
  {
    if current != start {
      assert Entry(adj, parent[current].0, current).Some?;
    }
  }

  /** `bfs(graph, startActor, endActor)`, on `graph.adjList`. The same actor
      gives the empty path at once. Otherwise nodes are dequeued in FIFO
      order, the search stops when `endActor` is dequeued, and neighbours
      are enumerated in an unspecified order. The result is a `BfsAnswer`:
      a shortest labelled path, or the empty path when no walk exists. */
  method Bfs(adj: Adjacency, start: string, end: string) returns (r: BfsResult)
    ensures BfsAnswer(adj, start, end, r)
  {
    if start == end {
      return Returned([]);
    }
    var q: seq<string> := [start];
    var visited: set<string> := {start};
    var parent: map<string, (string, string)> := map[];
    ghost var dist: map<string, nat> := map[start := 0];
    ghost var universe := {start} + Nodes(adj);
    FrontierInit(adj, start, end);

    while q != []
      invariant visited <= universe
      invariant Frontier(adj, start, end, q, visited, parent, dist)
      invariant start !in adj ==> q == [start]
      decreases |universe - visited| + |q|
    {
      var current := q[0];
      if current == end {
        var path := ReconstructPath(adj, parent, dist, start, end);
        FoundAnswer(adj, start, end, visited, dist, path);
        return Returned(path);
      }
      if current !in adj {
        // graph.adjList.at(current) throws std::out_of_range
        OutOfRangeAnswer(adj, start, end, parent, dist, current);
        return OutOfRange;
      }
      DequeueStep(adj, start, end, q, visited, parent, dist);
      q := q[1..];
      var neighbours := adj[current];
      var pending := neighbours.Keys;
      ghost var level := dist[current];
      ghost var measure := |universe - visited| + |q|;
      while pending != {}
        invariant visited <= universe
        invariant Expanding(adj, start, end, current, level, pending, q, visited, parent, dist)
        invariant |universe - visited| + |q| == measure
        decreases pending
      {
        var neighbour :| neighbour in pending;
        if neighbour !in visited {
          DiscoverStep(adj, start, end, current, level, pending, q, visited, parent, dist, neighbour);
          assert neighbour in universe by {
            assert current in adj && neighbour in adj[current];
          }
          CardRemoveOne(universe, visited, neighbour);
          visited := visited + {neighbour};
          parent := parent[neighbour := (current, neighbours[neighbour])];
          dist := dist[neighbour := level + 1];
          q := q + [neighbour];
        } else {
          SkipStep(adj, start, end, current, level, pending, q, visited, parent, dist, neighbour);
        }
        pending := pending - {neighbour};
      }
      ExpandDone(adj, start, end, current, level, q, visited, parent, dist);
    }
    DrainedUnreachable(adj, start, end, visited, parent, dist);
    return Returned([]);
  }

  /** On a symmetric graph a walk read backwards is a walk. */
  lemma ReverseWalk(adj: Adjacency, w: seq<string>)
    requires Symmetric(adj) && IsWalk(adj, w)
    ensures IsWalk(adj, Reverse(w))
  {
    var r := Reverse(w);
    forall i | 0 <= i < |r| - 1 ensures Entry(adj, r[i], r[i + 1]).Some? {
      assert r[i] == w[|w| - 1 - i] && r[i + 1] == w[|w| - 2 - i];
      assert Entry(adj, w[|w| - 2 - i], w[|w| - 1 - i]).Some?;
    }
  }

  /** Degree symmetry: on a symmetric graph, when the search from `a` to `b`
      finds a path, the search from `b` to `a` finds one too, with the same
      number of steps (the paths themselves may differ). */
  lemma DegreeSymmetric(adj: Adjacency, a: string, b: string, r1: BfsResult, r2: BfsResult)
    requires Symmetric(adj)
    requires BfsAnswer(adj, a, b, r1) && BfsAnswer(adj, b, a, r2)
    ensures r1.Returned? && r1.path != [] ==> r2.Returned? && r2.path != [] && |r1.path| == |r2.path|
  {
    if r1.Returned? && r1.path != [] {
      var w1 := Actors(r1.path);
      ReverseWalk(adj, w1);
      assert WalkBetween(adj, Reverse(w1), b, a);
      assert |w1| >= 2;
      assert Entry(adj, w1[|w1| - 2], b).Some?;
      assert Entry(adj, b, w1[|w1| - 2]).Some?;
      SymmetricIsClosed(adj);
      assert r2.Returned? && r2.path != [];
      var w2 := Actors(r2.path);
      ReverseWalk(adj, w2);
      assert WalkBetween(adj, Reverse(w2), a, b);
    }
  }
}
