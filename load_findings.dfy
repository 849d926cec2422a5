/**
 * Two steps of `ActorGraph::loadFromFile` as written, side by side with the
 * corrected steps of graph_spec.dfy that the rest of the model uses.
 *
 *  (a) A later record of a known movie links the actor with a local copy of
 *      the cast and appends the actor to that copy only (ActorGraph.cpp:94,
 *      116): the stored cast never grows past its first actor.
 *  (b) The movie map is looked up by the bare title (lines 79, 91, 94) and
 *      the edges are labelled with it (lines 107-112): two films that share
 *      a title but not a year become one cast.
 */
module LoadFindings {
  import opened Movies
  import opened GraphSpec

  /** Step (a) as written: the edges are added, the stored cast is left as it was. */
  function AddRecordCopiedCast(g: GraphVal, actor: string, m: Movie): (r: GraphVal)
    requires Closed(g)
    ensures Closed(r)
  {
    var adj := WithActor(g.adj, actor);
    if m !in g.casts then GraphVal(adj, g.casts[m := [actor]])
    else GraphVal(Connect(adj, actor, g.casts[m], m), g.casts)
  }

  /**
   * Three actors in one movie, as written: the cast stays `["A"]`, and the
   * second and third actor, who share the movie, are never linked.
   */
  lemma CopiedCastDropsCoStars()
    ensures var m := Movie("Avengers: Endgame", 2019);
            var g := AddRecordCopiedCast(AddRecordCopiedCast(AddRecordCopiedCast(EmptyGraph, "A", m), "B", m), "C", m);
            g.casts[m] == ["A"] &&
            g.adj["B"] == [Link("B", "A", m)] && g.adj["C"] == [Link("C", "A", m)] &&
            Link("C", "B", m) !in g.adj["C"] && Link("B", "C", m) !in g.adj["B"]
  {
  }

  /** The same three records with the corrected step: a full cast, every pair linked. */
  lemma GrowingCastLinksCoStars()
    ensures var m := Movie("Avengers: Endgame", 2019);
            var g := AddRecord(AddRecord(AddRecord(EmptyGraph, "A", m), "B", m), "C", m);
            g.casts[m] == ["A", "B", "C"] &&
            g.adj["A"] == [Link("A", "B", m), Link("A", "C", m)] &&
            g.adj["B"] == [Link("B", "A", m), Link("B", "C", m)] &&
            g.adj["C"] == [Link("C", "A", m), Link("C", "B", m)]
  {
    var m := Movie("Avengers: Endgame", 2019);
    TwoCoStars(m);
    var g2 := AddRecord(AddRecord(EmptyGraph, "A", m), "B", m);
    var adj2 := WithActor(g2.adj, "C");
    assert ["A", "B"][..1] == ["A"] && ["A"][..0] == [];
    assert Connect(adj2, "C", ["A"], m) == AddPair(adj2, "C", "A", m);
  }

  /** The first two records of one movie, corrected: a cast of two, linked both ways. */
  lemma TwoCoStars(m: Movie)
    ensures var g := AddRecord(AddRecord(EmptyGraph, "A", m), "B", m);
            g.adj.Keys == {"A", "B"} && g.casts.Keys == {m} && g.casts[m] == ["A", "B"] &&
            g.adj["A"] == [Link("A", "B", m)] && g.adj["B"] == [Link("B", "A", m)]
  {
    var g1 := AddRecord(EmptyGraph, "A", m);
    assert g1.casts[m] == ["A"] && g1.adj.Keys == {"A"} && g1.adj["A"] == [];
    var adj1 := WithActor(g1.adj, "B");
    assert ["A"][..0] == [];
    assert Connect(adj1, "B", ["A"], m) == AddPair(adj1, "B", "A", m);
  }

  /** An edge as step (b) labels it: with the title only. */
  datatype TitleLink = TitleLink(src: string, dest: string, title: string)

  datatype TitleGraph = TitleGraph(adj: map<string, seq<TitleLink>>, casts: map<string, seq<string>>)

  ghost predicate TitleClosed(g: TitleGraph) {
    forall t, i :: t in g.casts && 0 <= i < |g.casts[t]| ==> g.casts[t][i] in g.adj
  }

  function TitleConnect(adj: map<string, seq<TitleLink>>, actor: string, cast: seq<string>, title: string): (r: map<string, seq<TitleLink>>)
    requires actor in adj && forall i :: 0 <= i < |cast| ==> cast[i] in adj
    ensures r.Keys == adj.Keys
    decreases |cast|
  {
    if cast == [] then adj
    else
      var before := TitleConnect(adj, actor, cast[..|cast| - 1], title);
      var c := cast[|cast| - 1];
      var adj1 := before[actor := before[actor] + [TitleLink(actor, c, title)]];
      adj1[c := adj1[c] + [TitleLink(c, actor, title)]]
  }

  /**
   * Step (b) as written: the year is read but plays no part. (The cast is
   * made to grow here, as in the corrected step, so that only the key differs.)
   */
  function AddRecordByTitle(g: TitleGraph, actor: string, m: Movie): (r: TitleGraph)
    requires TitleClosed(g)
    ensures TitleClosed(r)
  {
    var adj := if actor in g.adj then g.adj else g.adj[actor := []];
    if m.name !in g.casts then TitleGraph(adj, g.casts[m.name := [actor]])
    else TitleGraph(TitleConnect(adj, actor, g.casts[m.name], m.name), g.casts[m.name := g.casts[m.name] + [actor]])
  }

  /** A remake, as written: the actors of the 2000 and the 2010 film are linked as co-stars. */
  lemma TitleKeyMergesFilms()
    ensures var g := AddRecordByTitle(AddRecordByTitle(TitleGraph(map[], map[]), "A", Movie("M", 2000)), "B", Movie("M", 2010));
            g.casts["M"] == ["A", "B"] &&
            g.adj["A"] == [TitleLink("A", "B", "M")] && g.adj["B"] == [TitleLink("B", "A", "M")]
  {
  }

  /** The same two records keyed by title and year: two casts and no edge. */
  lemma MovieKeySeparatesFilms()
    ensures var g := AddRecord(AddRecord(EmptyGraph, "A", Movie("M", 2000)), "B", Movie("M", 2010));
            g.casts[Movie("M", 2000)] == ["A"] && g.casts[Movie("M", 2010)] == ["B"] &&
            g.adj["A"] == [] && g.adj["B"] == []
  {
  }

  /**
   * In general, with the corrected step, an edge only ever links two actors
   * of one film, title and year alike: a record never links its actor to the
   * cast of another year's film.
   */
  lemma RecordLinksOnlyItsFilm(g: GraphVal, actor: string, m: Movie, k: string, e: Link)
    requires Closed(g) && k in g.adj
    requires e in AddRecord(g, actor, m).adj[k] && e !in g.adj[k]
    ensures e.movie == m
  {
    if m in g.casts {
      ConnectNewLinks(WithActor(g.adj, actor), actor, g.casts[m], m, k, e);
    }
  }

  /** Every edge `Connect` adds is labelled with its movie. */
  lemma {:induction false} ConnectNewLinks(adj: map<string, seq<Link>>, actor: string, cast: seq<string>, m: Movie, k: string, e: Link)
    requires actor in adj && k in adj && forall i :: 0 <= i < |cast| ==> cast[i] in adj
    requires e in Connect(adj, actor, cast, m)[k] && e !in adj[k]
    ensures e.movie == m
    decreases |cast|
  {
    if cast != [] {
      var before := Connect(adj, actor, cast[..|cast| - 1], m);
      if e in before[k] {
        ConnectNewLinks(adj, actor, cast[..|cast| - 1], m, k, e);
      }
    }
  }
}
