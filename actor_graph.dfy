/**
 * The `ActorGraph` class of src/ActorGraph/ActorGraph.cpp: a map from actor
 * name to node and a map from movie to cast, filled by `loadFromFile`.
 *
 * The heap structure is tied by `Valid()` to the value of graph_spec.dfy
 * (`view`), so what the loader builds is stated, and its properties proved,
 * on that value: `LoadFromFile` leaves `view == LoadInto(old(view), lines)`.
 */
module ActorGraphs {
  import opened Movies
  import opened Records
  import opened ActorNodes
  import opened GraphSpec

  /** An edge object as the abstract graph sees it. */
  function LinkOf(e: Edge): Link {
    Link(e.src.name, e.dest.name, e.movie)
  }

  function LinksOf(es: seq<Edge>): (r: seq<Link>)
    ensures |r| == |es| && forall i :: 0 <= i < |es| ==> r[i] == LinkOf(es[i])
  {
    seq(|es|, i requires 0 <= i < |es| => LinkOf(es[i]))
  }

  function NamesOf(ns: seq<Node>): (r: seq<string>)
    ensures |r| == |ns| && forall i :: 0 <= i < |ns| ==> r[i] == ns[i].name
  {
    seq(|ns|, i requires 0 <= i < |ns| => ns[i].name)
  }

  /** The edges `es` all leave `n`, belong to `E` and lead to a node of `ns`. */
  ghost predicate OwnedBy(n: Node, es: seq<Edge>, ns: set<Node>, E: set<Edge>) {
    forall i :: 0 <= i < |es| ==> es[i] in E && es[i].src == n && es[i].dest in ns
  }

  lemma OwnedByGrows(n: Node, es: seq<Edge>, ns: set<Node>, E: set<Edge>, ns': set<Node>, E': set<Edge>)
    requires OwnedBy(n, es, ns, E) && ns <= ns' && E <= E'
    ensures OwnedBy(n, es, ns', E')
  {
  }

  lemma OwnedByAppend(n: Node, es: seq<Edge>, ns: set<Node>, E: set<Edge>, e: Edge)
    requires OwnedBy(n, es, ns, E) && e in E && e.src == n && e.dest in ns
    ensures OwnedBy(n, es + [e], ns, E)
  {
  }

  lemma NamesOfAppend(ns: seq<Node>, n: Node)
    ensures NamesOf(ns + [n]) == NamesOf(ns) + [n.name]
  {
  }

  /** One node per name, stored under its name. */
  ghost predicate NodesKeyed(actorList: map<string, Node>, nodes: set<Node>) {
    && (forall k :: k in actorList ==> actorList[k] in nodes && actorList[k].name == k)
    && (forall n :: n in nodes ==> n.name in actorList && actorList[n.name] == n)
  }

  /** Every cast member is a node, and the casts spell out `casts`. */
  ghost predicate CastsStored(movieList: map<Movie, seq<Node>>, casts: map<Movie, seq<string>>, nodes: set<Node>) {
    && casts.Keys == movieList.Keys
    && (forall m :: m in movieList ==> casts[m] == NamesOf(movieList[m]))
    && (forall m, i :: m in movieList && 0 <= i < |movieList[m]| ==> movieList[m][i] in nodes)
  }

  /** Each node's edge list spells out its entry of `adj`. */
  ghost predicate AdjStored(adj: map<string, seq<Link>>, nodes: set<Node>)
    reads nodes`edges
  {
    forall n {:trigger n.edges} :: n in nodes ==> n.name in adj && adj[n.name] == LinksOf(n.edges)
  }

  /** Every node's edges belong to `edges`, leave that node and lead to a node. */
  ghost predicate EdgesOwned(nodes: set<Node>, edges: set<Edge>)
    reads nodes`edges
  {
    forall n {:trigger n.edges} :: n in nodes ==> OwnedBy(n, n.edges, nodes, edges)
  }

  class ActorGraph {
    var actorList: map<string, Node>
    var movieList: map<Movie, seq<Node>>
    /** The nodes and edges the graph owns. */
    ghost var nodes: set<Node>
    ghost var edges: set<Edge>
    /** The abstract value the maps and edge lists represent. */
    ghost var view: GraphVal

    ghost predicate HeapValid()
      reads this, nodes`edges
    {
      && NodesKeyed(actorList, nodes)
      && CastsStored(movieList, view.casts, nodes)
      && view.adj.Keys == actorList.Keys && AdjStored(view.adj, nodes)
      && EdgesOwned(nodes, edges)
    }

    /** The representation, plus the invariants every loaded graph has (graph_spec.dfy). */
    ghost predicate Valid()
      reads this, nodes`edges
    {
      HeapValid() && Coherent(view)
    }

    constructor ()
      ensures Valid() && view == EmptyGraph && nodes == {} && edges == {}
    {
      actorList := map[];
      movieList := map[];
      nodes := {};
      edges := {};
      view := EmptyGraph;
    }

    /** No two nodes share a name. */
    lemma NamesDistinct(n1: Node, n2: Node)
      requires HeapValid() && n1 in nodes && n2 in nodes && n1.name == n2.name
      ensures n1 == n2
    {
    }

    /** The node for `actor`: the stored one, or a fresh node with no edges that is stored under the name. */
    method ActorNode(actor: string) returns (n: Node)
      requires HeapValid()
      modifies this`actorList, this`nodes, this`view
      ensures HeapValid() && n in nodes && n.name == actor && movieList == old(movieList)
      ensures old(nodes) <= nodes && fresh(nodes - old(nodes))
      ensures actor in old(actorList) ==>
                n == old(actorList)[actor] && actorList == old(actorList) && nodes == old(nodes) && view == old(view)
      ensures actor !in old(actorList) ==>
                fresh(n) && n.edges == [] && actorList == old(actorList)[actor := n] && nodes == old(nodes) + {n} &&
                view == old(view).(adj := old(view).adj[actor := []])
    {
      if actor !in actorList {
        n := new Node(actor);
        actorList := actorList[actor := n];
        nodes := nodes + {n};
        view := view.(adj := view.adj[actor := []]);
        assert NodesKeyed(actorList, nodes) && CastsStored(movieList, view.casts, nodes);
        assert AdjStored(view.adj, nodes);
        forall o | o in nodes
          ensures OwnedBy(o, o.edges, nodes, edges)
        {
          if o != n {
            OwnedByGrows(o, o.edges, old(nodes), edges, nodes, edges);
          }
        }
      } else {
        n := actorList[actor];
      }
    }

    /** A fresh, unchecked edge from `a` to `b` for `m`, appended to `a`'s list. */
    method AddOwnedEdge(a: Node, b: Node, m: Movie) returns (e: Edge)
      requires HeapValid() && a in nodes && b in nodes
      modifies this`edges, this`view, a`edges
      ensures HeapValid()
      ensures view == old(view).(adj := old(view).adj[a.name := old(view).adj[a.name] + [Link(a.name, b.name, m)]])
      ensures fresh(e) && edges == old(edges) + {e} && e.Pristine()
    {
      e := new Edge(a, b, m);
      a.AddEdge(e);
      edges := edges + {e};
      view := view.(adj := view.adj[a.name := view.adj[a.name] + [LinkOf(e)]]);

      assert LinksOf(old(a.edges) + [e]) == LinksOf(old(a.edges)) + [LinkOf(e)];
      assert AdjStored(view.adj, nodes);
      forall n | n in nodes
        ensures OwnedBy(n, n.edges, nodes, edges)
      {
        OwnedByGrows(n, old(n.edges), nodes, old(edges), nodes, edges);
        if n == a {
          OwnedByAppend(n, old(n.edges), nodes, edges, e);
        }
      }
    }

    /**
     * One pass of the edge loop: a fresh edge from `a` to `b` appended to
     * `a`'s list, then a fresh edge from `b` to `a` appended to `b`'s.
     */
    method LinkPair(a: Node, b: Node, m: Movie) returns (edgeFromCurr: Edge, edgeToCurr: Edge)
      requires HeapValid() && a in nodes && b in nodes
      modifies this`edges, this`view, a`edges, b`edges
      ensures HeapValid()
      ensures view.adj == AddPair(old(view).adj, a.name, b.name, m) && view.casts == old(view).casts
      ensures edges == old(edges) + {edgeFromCurr, edgeToCurr}
      ensures fresh(edgeFromCurr) && fresh(edgeToCurr) && edgeFromCurr != edgeToCurr
      ensures edgeFromCurr.Pristine() && edgeToCurr.Pristine()
    {
      edgeFromCurr := AddOwnedEdge(a, b, m);
      edgeToCurr := AddOwnedEdge(b, a, m);
    }

    /** Stores `cast` as the movie's cast. */
    method StoreCast(m: Movie, cast: seq<Node>)
      requires HeapValid() && forall i :: 0 <= i < |cast| ==> cast[i] in nodes
      modifies this`movieList, this`view
      ensures HeapValid()
      ensures movieList == old(movieList)[m := cast]
      ensures view == old(view).(casts := old(view).casts[m := NamesOf(cast)])
    {
      movieList := movieList[m := cast];
      view := view.(casts := view.casts[m := NamesOf(cast)]);

    }

    /** The edge loop: one edge pair between `a` and each node of `cast`, in order. */
    method ConnectToCast(a: Node, cast: seq<Node>, m: Movie)
      requires HeapValid() && a in nodes && forall j :: 0 <= j < |cast| ==> cast[j] in nodes
      modifies this`edges, this`view, nodes`edges
      ensures HeapValid()
      ensures view == old(view).(adj := Connect(old(view).adj, a.name, NamesOf(cast), m))
    {
      ghost var names := NamesOf(cast);
      ghost var adj0 := view.adj;
      ghost var casts0 := view.casts;
      assert names[..0] == [];
      var i := 0;
      while i < |cast|
        invariant 0 <= i <= |cast|
        invariant view.casts == casts0
        invariant HeapValid()
        invariant ConnectedUpTo(view.adj, adj0, a.name, names, i, m)
      {
        assert names[i] == cast[i].name;
        ConnectStep(view.adj, adj0, a.name, names, i, m);
        var edgeFromCurr, edgeToCurr := LinkPair(a, cast[i], m);
        i := i + 1;
      }
      assert names[..i] == names;
    }

    /**
     * One record (actor, movie): find or create the actor's node; for a new
     * movie store the cast `[actor]`, otherwise add an edge pair between the
     * actor and each cast member, in cast order, and append the actor.
     * Each pair is two fresh, unchecked edges.
     */
    method InsertRecord(actor: string, m: Movie)
      requires Valid()
      modifies this, nodes`edges
      ensures Valid()
      ensures view == AddRecord(old(view), actor, m)
      ensures old(nodes) <= nodes && fresh(nodes - old(nodes))
    {
      ghost var v0 := view;
      var currActor := ActorNode(actor);
      ghost var nodes1 := nodes;
      if m !in movieList {
        StoreCast(m, [currActor]);
        assert NamesOf([currActor]) == [actor];
        assert view.adj == AddRecord(v0, actor, m).adj;
      } else {
        // The edges go to the stored cast; the actor is then appended to it.
        var cast := movieList[m];
        ConnectToCast(currActor, cast, m);
        NamesOfAppend(cast, currActor);
        StoreCast(m, cast + [currActor]);
        assert view.adj == AddRecord(v0, actor, m).adj;
      }
      assert nodes == nodes1;
      assert view == AddRecord(v0, actor, m);
      AddRecordInvariants(v0, actor, m);
      AddRecordCastsLinked(v0, actor, m);
    }

    /**
     * `loadFromFile` on the lines of a file: the first line is a header, a
     * line that does not split into exactly three fields is skipped, and
     * every other line is one record (actor, title, year). Reading never
     * fails here (stream errors are outside the model).
     */
    method LoadFromFile(lines: seq<string>) returns (ok: bool)
      requires Valid() && (lines == [] || RowsReadable(lines[1..]))
      modifies this, nodes`edges
      ensures Valid() && ok
      ensures view == LoadInto(old(view), lines)
      ensures old(nodes) <= nodes && fresh(nodes - old(nodes))
    {
      ghost var v0 := view;
      ghost var rows := if lines == [] then [] else lines[1..];
      ghost var acc := v0;
      var haveHeader := false;
      var i := 0;
      while i < |lines|
        invariant 0 <= i <= |lines|
        invariant Valid() && view == acc
        invariant haveHeader <==> i > 0
        invariant i > 0 ==> acc == Build(v0, rows[..i - 1])
        invariant i == 0 ==> acc == v0
        invariant old(nodes) <= nodes && fresh(nodes - old(nodes))
      {
        var s := lines[i];
        if !haveHeader {
          haveHeader := true;
          assert rows[..0] == [];
        } else {
          assert rows[i - 1] == s;
          BuildStep(v0, rows, i - 1);
          ReadLine(s);
          acc := AddLine(acc, s);
        }
        i := i + 1;
      }
      if lines != [] {
        assert rows[..i - 1] == rows;
      }
      ok := true;
    }

    /** One data line: a line of exactly three fields is a record, any other is skipped. */
    method ReadLine(s: string)
      requires Valid() && YearReadable(s)
      modifies this, nodes`edges
      ensures Valid() && view == AddLine(old(view), s)
      ensures old(nodes) <= nodes && fresh(nodes - old(nodes))
    {
      var record := SplitRecord(s);
      if |record| == 3 {
        var actor := record[0];
        var movieTitle := record[1];
        var year := DigitsValue(record[2]);
        InsertRecord(actor, Movie(movieTitle, year));
      }
    }

    /** `getActorNode`: the actor's node, or null when no actor has that name. */
    method GetActorNode(actorName: string) returns (n: Node?)
      requires Valid()
      ensures n == null <==> actorName !in view.adj
      ensures n != null ==> n == actorList[actorName] && n in nodes && n.name == actorName
      ensures n != null ==> LinksOf(n.edges) == view.adj[actorName]
    {
      if actorName !in actorList {
        return null;
      }
      return actorList[actorName];
    }

    /** `getMovieCast`: the movie's cast in record order, empty for an unknown movie. */
    method GetMovieCast(movie: Movie) returns (cast: seq<Node>)
      requires Valid()
      ensures NamesOf(cast) == (if movie in view.casts then view.casts[movie] else [])
      ensures forall i :: 0 <= i < |cast| ==> cast[i] in nodes
    {
      if movie !in movieList {
        return [];
      }
      return movieList[movie];
    }
  }
}
