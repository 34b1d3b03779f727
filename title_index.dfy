/** The title -> actors index built in `main` (HT_ca5.cpp:187-198) from the
    parsed actor records. */
module TitleIndex {

  /** A parsed actor row: its primary name and the set of title ids listed
      in its knownForTitles column. */
  datatype Actor = Actor(name: string, knownForTitles: set<string>)

  /** Some record in `actors` has the name `name` and lists `title`. */
  ghost predicate Lists(actors: seq<Actor>, name: string, title: string)
  {
    exists i :: 0 <= i < |actors| && actors[i].name == name && title in actors[i].knownForTitles
  }

  lemma ListsExtend(actors: seq<Actor>, i: nat, name: string, title: string)
    requires i < |actors|
    ensures Lists(actors[..i + 1], name, title) <==>
      Lists(actors[..i], name, title) || (actors[i].name == name && title in actors[i].knownForTitles)
  {
    if Lists(actors[..i + 1], name, title) {
      var j :| 0 <= j < i + 1 && actors[..i + 1][j].name == name && title in actors[..i + 1][j].knownForTitles;
      if j < i {
        assert actors[..i][j] == actors[j];
      }
    }
    if Lists(actors[..i], name, title) {
      var j :| 0 <= j < i && actors[..i][j].name == name && title in actors[..i][j].knownForTitles;
      assert actors[..i + 1][j] == actors[j];
    }
    if actors[i].name == name && title in actors[i].knownForTitles {
      assert actors[..i + 1][i] == actors[i];
    }
  }

  /** Inverts every actor's knownForTitles into `titleToActors`: `name` is in
      `titleToActors[t]` exactly when some record of that name lists `t`, so
      an actor with no titles contributes nothing, and every entry that
      exists holds at least one name (`operator[]` creates an entry only to
      insert into it). */
  method BuildTitleIndex(actors: seq<Actor>) returns (titleToActors: map<string, set<string>>)
    ensures forall t :: t in titleToActors ==> titleToActors[t] != {}
    ensures forall t, name :: (t in titleToActors && name in titleToActors[t]) <==> Lists(actors, name, t)
  {
    titleToActors := map[];
    var i := 0;
    while i < |actors|
      invariant i <= |actors|
      invariant forall t :: t in titleToActors ==> titleToActors[t] != {}
      invariant forall t, name :: (t in titleToActors && name in titleToActors[t]) <==> Lists(actors[..i], name, t)
    {
      var actor := actors[i];
      var pending := actor.knownForTitles;
      while pending != {}
        invariant pending <= actor.knownForTitles
        invariant forall t :: t in titleToActors ==> titleToActors[t] != {}
        invariant forall t, name :: (t in titleToActors && name in titleToActors[t]) <==>
          (Lists(actors[..i], name, t) || (name == actor.name && t in actor.knownForTitles - pending))
        decreases pending
      {
        var title :| title in pending;
        ghost var before := titleToActors;
        var members := if title in titleToActors then titleToActors[title] else {};
        titleToActors := titleToActors[title := members + {actor.name}];
        pending := pending - {title};
        forall t, name ensures (t in titleToActors && name in titleToActors[t]) <==>
          (Lists(actors[..i], name, t) || (name == actor.name && t in actor.knownForTitles - pending))
        {
          if t != title {
            assert (t in titleToActors && name in titleToActors[t]) <==> (t in before && name in before[t]);
            assert (t in actor.knownForTitles - pending) == (t in actor.knownForTitles - (pending + {title}));
          } else {
            assert title in actor.knownForTitles - pending;
            assert (t in before && name in before[t]) <==> Lists(actors[..i], name, t);
          }
        }
      }
      assert actor.knownForTitles - pending == actor.knownForTitles;
      forall t, name ensures (t in titleToActors && name in titleToActors[t]) <==> Lists(actors[..i + 1], name, t)
      {
        ListsExtend(actors, i, name, t);
      }
      assert forall t, name :: (t in titleToActors && name in titleToActors[t]) <==> Lists(actors[..i + 1], name, t);
      i := i + 1;
      assert forall t, name :: (t in titleToActors && name in titleToActors[t]) <==> Lists(actors[..i], name, t);
    }
    assert actors[..|actors|] == actors;
  }
}
