# Degrees of separation between actors — a Dafny model of HT_ca5.cpp

HT_ca5.cpp reads actor records, each a primary name plus a set of
"known for" title ids. From them it builds:

- an index from each title to the actors who list it;
- an undirected co-star graph. Two actors are joined when they share a
  title, and the edge is labelled with one such title id.

It then runs a breadth-first search from one actor to another and
reconstructs the path with the title of each hop.
The model covers the following:

- `trim` (module `Text`, `text.dfy`). A pure function built on the two
  `find_*_not_of(' ')` searches.
- The title index loop of `main` (module `TitleIndex`,
  `title_index.dfy`). A method over a sequence of parsed `Actor` records.
- `struct Graph`, `addEdge` and the edge-building loop of `main` (module
  `Graphs`, `graph.dfy`):
  - `Graph` is a class with its `adjList` field.
  - `addEdge` is a method of that class.
  - The loop is the method `BuildGraph`.
  - Unordered sets are enumerated with `:|`, so no order is assumed.
- `bfs` and its path reconstruction (module `Search`, `bfs.dfy`). It is
  imperative: a FIFO queue, a visited set and a parent map. A ghost
  distance map carries the shortest-path argument.
- The pipeline of `main` without its I/O (module `Connection`,
  `connection.dfy`). The pieces are composed and the answer is restated in
  terms of the actor records.

The exception that `graph.adjList.at(current)` can throw is the
`OutOfRange` value of `BfsResult`.

The search keeps the program's result convention: `bfs` returns the
empty path both for "same actor" and for "no connection". The two cases
can still be told apart from the inputs. The empty path means "same
actor" exactly when `start == end`. For distinct actors it means that no
walk joins them (`Search.BfsAnswer`).

## Model

| member | source | states |
|---|---|---|
| Text.FindFirstNotSpace | HT_ca5.cpp:37-38 | `None` (npos) exactly when the string is all spaces; otherwise an index of a non-space with only spaces before it |
| Text.FindLastNotSpace | HT_ca5.cpp:42 | `None` exactly when the string is all spaces; otherwise an index of a non-space with only spaces after it |
| Text.SpanBetween | HT_ca5.cpp:42-43 | the first non-space comes no later than the last one, so the `substr` length is positive and the string splits into leading spaces, the span and trailing spaces |
| Text.Trim | HT_ca5.cpp:35-44 | a string of spaces only, "" included, is returned unchanged; otherwise the result is non-empty, neither starts nor ends with a space, and the input is the result with spaces around it |
| Text.TrimIdempotent | HT_ca5.cpp:35-44 | trimming a trimmed string changes nothing |
| TitleIndex.ListsExtend | HT_ca5.cpp:191-197 | one more processed record adds exactly the (name, title) pairs of that record |
| TitleIndex.BuildTitleIndex | HT_ca5.cpp:187-198 | `name` is in `titleToActors[t]` exactly when some record with that name lists `t`; every entry that exists is non-empty, so an actor with no titles adds nothing |
| Graphs.SetEntryEffect | HT_ca5.cpp:31-32 | one `adjList[a][b] = v` sets that entry, makes `a` a key and leaves every other entry as it was |
| Graphs.Graph.AddEdge | HT_ca5.cpp:29-33 | both directions carry the new label, the key set grows by exactly the two actors, and every other entry is unchanged |
| Graphs.SymmetricIsClosed | HT_ca5.cpp:31-32 | on a symmetric adjacency map every neighbour is also a key |
| Graphs.AddEdgeKeepsSymmetric | HT_ca5.cpp:226 | after an `addEdge` every entry a→b still equals b→a |
| Graphs.AddEdgeKeepsShared | HT_ca5.cpp:224-226 | after an `addEdge` between two distinct members of a title, every edge still joins distinct actors and carries a title both of them belong to |
| Graphs.AddEdgeKeepsRows | HT_ca5.cpp:226 | after an `addEdge` every key still has a neighbour |
| Graphs.AddEdgeKeepsMembers | HT_ca5.cpp:222-226 | after an `addEdge` every key is still a member of some title |
| Graphs.AddEdgeKeeps | HT_ca5.cpp:222-227 | an `addEdge` inside the loop keeps the graph symmetric, keeps every label a shared title, keeps keys members with neighbours, and removes no edge |
| Graphs.BuildGraph | HT_ca5.cpp:217-229 | the graph is new; it is symmetric; a→b is an edge exactly when a ≠ b and both belong to a common title (so no self-loops); its label is some title both belong to; every key is a member of a title and has a neighbour |
| Search.Actors | HT_ca5.cpp:111-130 | the actor column of a path, element by element |
| Search.LinkedIsWalk | HT_ca5.cpp:111-130 | a path whose hops follow labelled entries is a walk of the graph |
| Search.Reverse | HT_ca5.cpp:129 | element i of the result is element n-1-i of the input |
| Search.ReverseSnoc | HT_ca5.cpp:119-129 | reversing after a `push_back` puts the pushed element first |
| Search.LinkedCons | HT_ca5.cpp:114-119 | putting the parent in front of a linked path, with the edge's label on the old head, keeps it linked |
| Search.ParentChainAdd | HT_ca5.cpp:137-138 | recording `parent[v] = (current, label)` for a newly discovered `v` keeps every parent one step nearer the start and joined by that edge |
| Search.ReconstructPath | HT_ca5.cpp:111-130 | the walk back along `parent` reaches `start`; the result has one step per distance plus one, starts at (start, "") and ends at `end`; each step's label is the entry from the previous actor; `parent[current]` and `at(parentActor)` always succeed, and the debug branch of 121-125 is unreachable |
| Search.WalkStaysVisited | HT_ca5.cpp:97-141 | while every node nearer than the current level has been expanded, a walk from the start stays in `visited` for its first `level` steps |
| Search.CardRemoveOne | HT_ca5.cpp:135-137 | visiting a node not yet visited shrinks the unvisited part of the node set by one, which is why the search terminates |
| Search.FrontierInit | HT_ca5.cpp:97-102 | the queue [start] with only `start` visited satisfies the outer loop's invariant |
| Search.DequeueStep | HT_ca5.cpp:104-107 | popping a node other than `end` that has an entry starts its expansion with the invariant intact |
| Search.SkipStep | HT_ca5.cpp:135 | an already visited neighbour is skipped with the invariant intact |
| Search.EnqueueKeepsOrder | HT_ca5.cpp:139 | pushing a node one level further keeps the queue sorted by distance and within two adjacent levels |
| Search.DiscoverMinimal | HT_ca5.cpp:135-139 | a newly discovered neighbour at the current level plus one is at its minimal distance from the start |
| Search.DiscoverStep | HT_ca5.cpp:135-140 | marking, parenting and enqueuing an unvisited neighbour keeps the invariant: parents consistent, distances minimal, queue ordered |
| Search.ExpandDone | HT_ca5.cpp:133-141 | once every neighbour has been enumerated, the dequeued node counts as expanded and the outer invariant holds again |
| Search.DrainedUnreachable | HT_ca5.cpp:104-144 | when the queue drains without meeting `end`, no walk joins the start to `end` |
| Search.FoundAnswer | HT_ca5.cpp:109-130 | when `end` is dequeued, the reconstructed path of minimal length is a correct answer: its actors form a walk and nothing shorter joins the two |
| Search.OutOfRangeAnswer | HT_ca5.cpp:133 | `at(current)` failing on a visited node means either the start has no entry or some edge leads to a node without one |
| Search.Bfs | HT_ca5.cpp:90-145 | the result is a `BfsAnswer`: same actor gives the empty path; a non-empty result starts at (start, ""), ends at `end`, follows labelled edges, its actors form a walk, and no walk between the two is shorter, so its length is exactly the minimum; an empty result for distinct actors means no walk exists; `OutOfRange` happens when `start` has no entry, and otherwise only on a graph with a neighbour that is not a key |
| Connection.EdgesAreCoStars | HT_ca5.cpp:187-229 | in the built graph a→b is an edge exactly when a and b are distinct actors whose records list a common title |
| Connection.WalksAreChains | HT_ca5.cpp:187-229 | walks of the built graph are exactly the chains of co-stars |
| Connection.KeyHasCoStar | HT_ca5.cpp:217-229 | an actor that is a key of the built graph co-stars with someone |
| Connection.HopsShareTitles | HT_ca5.cpp:217-229 | each hop of a linked path joins two distinct actors through a title both of them list |
| Connection.GraphMeaning | HT_ca5.cpp:187-229 | the start actor is a key exactly when it co-stars with someone, and walks from it are exactly co-star chains |
| Connection.OutOfRangeOnlyAtStart | HT_ca5.cpp:133 | on a symmetric graph `at(current)` can fail only when the start actor has no entry |
| Connection.QueryAnswer | HT_ca5.cpp:187-236 | a `BfsAnswer` on the graph built from the records is a `ConnectionAnswer` over the records |
| Connection.FindConnection | HT_ca5.cpp:187-236 | index, graph and search together give a `ConnectionAnswer`: `out_of_range` exactly when the two actors differ and the start actor co-stars with nobody; a non-empty path is a shortest co-star chain whose hops join distinct actors through a title both list; an empty path for distinct actors means no chain exists |
| Search.ReverseWalk | HT_ca5.cpp:29-33 | on a symmetric graph a walk read backwards is a walk |
| Search.DegreeSymmetric | HT_ca5.cpp:90-145 | on a symmetric graph, when the search from a to b finds a path, the search from b to a finds one of the same length |
| Connection.ReverseChain | HT_ca5.cpp:217-229 | a co-star chain read backwards is a co-star chain |
| Connection.FoundIsChain | HT_ca5.cpp:187-236 | the actors of a found path form a co-star chain from start to end |
| Connection.ChainDegreeSymmetric | HT_ca5.cpp:187-236 | on the graph built from the records, when the query from a to b finds a connection, the query from b to a finds one with the same number of steps |

## Left out

- File and console I/O of `main` (HT_ca5.cpp:180-215, 230-237): opening the TSV files, skipping header lines, reading the end actor from standard input, and the hard-wired start actor. The records and the two actor names are parameters.
- `parseActorLine` and `parseTitleLine` (HT_ca5.cpp:46-87): the tab and comma splitting depends on stream semantics. Parsed actor records are inputs; `trim` itself is modelled.
- The `titles` map and `printPathAndDegree` (HT_ca5.cpp:147-176, 201-215): console formatting only. The degree it prints is the path length minus one, which the contracts of `Bfs` already determine.
- Hashing and the concrete iteration order of `unordered_map` and `unordered_set`: these are mathematical maps and sets, enumerated in an unspecified order with `:|`.
- Exception semantics: `std::out_of_range` from `adjList.at(current)` is the result value `OutOfRange`, not an unwinding exception.
- Graphs.Graph.AddEdge: `addEdge` takes the graph by reference as a free function; here it is a method of `Graph` that changes `adjList`.
- Search.Bfs: it takes the adjacency map by value rather than `const Graph&`. This makes no difference, because `bfs` never writes the graph.
- Search.Bfs: on a graph with a neighbour that has no entry of its own, whether `at(current)` throws depends on the enumeration order. The contract states only that such a graph is the sole case other than a missing start entry, and does not say when the throw happens. Graphs built by `BuildGraph` are symmetric, so this case never arises for them.
- Graphs.BuildGraph: when two actors share several titles, the label left by the last write depends on hash order. The contract states only that the label is some title both actors belong to, not which one.
- Text.Trim: strings are sequences of characters with no encoding. The `size_t` arithmetic of `substr` cannot wrap, because the first non-space never comes after the last one (Text.SpanBetween).
