/**
 * The two link predictions of src/linkpredictor.cpp, over the heap graph of
 * actor_graph.dfy.
 *
 * An actor's collaborators are the ends of its edges, each counted with the
 * number of edges leading to it (one per shared movie). A candidate's
 * priority is the sum, over the actor's collaborators `n` other than the
 * candidate, of (edges actor→n) × (edges candidate→n). `predictCollaborate`
 * ranks the collaborators themselves. `predictNew` ranks the actors that a
 * collaborator's edge leads to and that are neither the actor nor a
 * collaborator. Both return the names of the first `TOP_RANK` entries in
 * `compare` order.
 *
 * The C++ iterates `unordered_map`s, whose order is unspecified; the model
 * picks the next key with `:|`, so every proof holds for any order.
 */
module LinkPredictor {
  import opened Movies
  import opened ActorNodes
  import opened GraphSpec
  import opened ActorGraphs
  import opened Ranking

  /** The number of edges of `es` that lead to `d`. */
  function EdgesTo(es: seq<Edge>, d: Node): nat
    decreases |es|
  {
    if es == [] then 0
    else EdgesTo(es[..|es| - 1], d) + (if es[|es| - 1].dest == d then 1 else 0)
  }

  /** The nodes the edges of `es` lead to. */
  function DestsOf(es: seq<Edge>): set<Node> {
    set i | 0 <= i < |es| :: es[i].dest
  }

  /** `d` is counted exactly when some edge leads to it. */
  lemma {:induction false} EdgesToPositive(es: seq<Edge>, d: Node)
    ensures EdgesTo(es, d) > 0 <==> d in DestsOf(es)
    decreases |es|
  {
    if es != [] {
      var init := es[..|es| - 1];
      EdgesToPositive(init, d);
      DestsOfStep(es, |es| - 1);
      assert es[..|es| - 1 + 1] == es;
    }
  }

  lemma DestsOfStep(es: seq<Edge>, i: int)
    requires 0 <= i < |es|
    ensures DestsOf(es[..i + 1]) == DestsOf(es[..i]) + {es[i].dest}
    ensures EdgesTo(es[..i + 1], es[i].dest) == EdgesTo(es[..i], es[i].dest) + 1
    ensures forall d :: d != es[i].dest ==> EdgesTo(es[..i + 1], d) == EdgesTo(es[..i], d)
  {
    assert es[..i + 1][..i] == es[..i];
    var pre, pre1 := es[..i], es[..i + 1];
    assert forall k :: 0 <= k < i ==> pre1[k] == pre[k];
    assert forall d :: d in DestsOf(pre1) ==> d in DestsOf(pre) || d == es[i].dest;
  }

  /**
   * Σ over `n` in `S` of (edges of `es` to `n`) × (edges of `ces` to `n`),
   * taken in no particular order.
   */
  ghost function SumOver(S: set<Node>, es: seq<Edge>, ces: seq<Edge>): int
    decreases |S|
  {
    if S == {} then 0
    else
      var n :| n in S;
      EdgesTo(es, n) * EdgesTo(ces, n) + SumOver(S - {n}, es, ces)
  }

  /** Any element may be taken out first: the sum does not depend on the order. */
  lemma {:induction false} SumOverRemove(S: set<Node>, k: Node, es: seq<Edge>, ces: seq<Edge>)
    requires k in S
    ensures SumOver(S, es, ces) == EdgesTo(es, k) * EdgesTo(ces, k) + SumOver(S - {k}, es, ces)
    decreases |S|
  {
    var n :| n in S && SumOver(S, es, ces) == EdgesTo(es, n) * EdgesTo(ces, n) + SumOver(S - {n}, es, ces);
    if n != k {
      SumOverRemove(S - {n}, k, es, ces);
      SumOverRemove(S - {k}, n, es, ces);
      assert S - {n} - {k} == S - {k} - {n};
    }
  }

  /** Terms with no edge from `ces` add nothing. */
  lemma {:induction false} SumOverZeros(S: set<Node>, T: set<Node>, es: seq<Edge>, ces: seq<Edge>)
    requires T <= S && forall n :: n in S && n !in T ==> EdgesTo(ces, n) == 0
    ensures SumOver(S, es, ces) == SumOver(T, es, ces)
    decreases |S|
  {
    if S != T {
      var n :| n in S && n !in T;
      SumOverRemove(S, n, es, ces);
      SumOverZeros(S - {n}, T, es, ces);
    }
  }

  /**
   * The priority of `x` for the actor whose edges are `es`: Σ over the
   * collaborators `n` other than `x` of (edges actor→n) × (edges x→n).
   */
  ghost function Score(es: seq<Edge>, x: Node): int
    reads x`edges
  {
    SumOver(DestsOf(es) - {x}, es, x.edges)
  }

  /** The pairs a prediction ranks: each candidate of `C` with its priority. */
  ghost function ScoredSet(C: set<Node>, es: seq<Edge>): set<Scored>
    reads C`edges
  {
    set c | c in C :: Scored(c.name, Score(es, c))
  }

  /** Where the edges of the nodes of `C` lead, leaving out `collabs` and `actor`. */
  ghost function Reach(C: set<Node>, collabs: set<Node>, actor: Node): set<Node>
    reads C`edges
  {
    set c, j | c in C && 0 <= j < |c.edges| && c.edges[j].dest !in collabs && c.edges[j].dest != actor :: c.edges[j].dest
  }

  /** The names an actor's edges lead to. */
  function CoStars(ls: seq<Link>): set<string> {
    set l | l in ls :: l.dest
  }

  /** `predictNew`'s candidates: actors one collaborator away who are neither collaborators nor the actor. */
  ghost function NewCandidates(es: seq<Edge>, actor: Node): set<Node>
    reads DestsOf(es)`edges
  {
    Reach(DestsOf(es), DestsOf(es), actor)
  }

  /** The ends of `es` outside `collabs` other than `actor`. */
  function NewDests(es: seq<Edge>, collabs: set<Node>, actor: Node): set<Node> {
    set d | d in DestsOf(es) && d !in collabs && d != actor
  }

  lemma ReachAdd(C: set<Node>, c: Node, collabs: set<Node>, actor: Node)
    ensures Reach(C + {c}, collabs, actor) == Reach(C, collabs, actor) + NewDests(c.edges, collabs, actor)
  {
    forall x | x in NewDests(c.edges, collabs, actor)
      ensures x in Reach(C + {c}, collabs, actor)
    {
      var j :| 0 <= j < |c.edges| && c.edges[j].dest == x;
    }
  }

  /** No two nodes of `N` share a name. */
  ghost predicate NamesUnique(N: set<Node>) {
    forall n, m :: n in N && m in N && n != m ==> n.name != m.name
  }

  /** The pairs of a map from nodes to priorities: each node's name with its priority. */
  function Pairs(m: map<Node, int>): set<Scored> {
    set x | x in m :: Scored(x.name, m[x])
  }

  /** A map holding each node's score gives the pairs a prediction ranks. */
  lemma PairsScored(m: map<Node, int>, C: set<Node>, es: seq<Edge>)
    requires m.Keys == C && forall x :: x in m ==> m[x] == Score(es, x)
    ensures Pairs(m) == ScoredSet(C, es)
  {
  }

  /**
   * Appending the pair of a node not yet listed: the pairs stay distinct,
   * since the names of different nodes differ, and now cover that node too.
   */
  lemma PairsPush(s: seq<Scored>, m: map<Node, int>, N: set<Node>, c: Node, v: int)
    requires NoDup(s) && Elems(s) == Pairs(m)
    requires m.Keys <= N && c in N && c !in m && NamesUnique(N)
    ensures NoDup(s + [Scored(c.name, v)])
    ensures Elems(s + [Scored(c.name, v)]) == Pairs(m[c := v])
  {
    var p := Scored(c.name, v);
    forall i | 0 <= i < |s|
      ensures s[i] != p
    {
      assert s[i] in Elems(s);
    }
    ElemsPush(s, p);
  }

  /** The counting loop (src/linkpredictor.cpp:45-52, 125-132): edges per collaborator. */
  method CountCollaborators(edges: seq<Edge>) returns (collaborators: map<Node, int>)
    ensures collaborators.Keys == DestsOf(edges)
    ensures forall d :: d in collaborators ==> collaborators[d] == EdgesTo(edges, d)
  {
    collaborators := map[];
    var edge := 0;
    while edge < |edges|
      invariant 0 <= edge <= |edges|
      invariant collaborators.Keys == DestsOf(edges[..edge])
      invariant forall d :: d in collaborators ==> collaborators[d] == EdgesTo(edges[..edge], d)
    {
      DestsOfStep(edges, edge);
      var dest := edges[edge].dest;
      if dest !in collaborators {
        EdgesToPositive(edges[..edge], dest);
        collaborators := collaborators[dest := 1];
      } else {
        collaborators := collaborators[dest := collaborators[dest] + 1];
      }
      edge := edge + 1;
    }
    assert edges[..edge] == edges;
  }

  /**
   * A neighbour-counting loop (src/linkpredictor.cpp:62-79 with `exclude` the
   * collaborator being scored, 163-175 with no exclusion): the edges of
   * `neighbors` per collaborator they lead to.
   */
  method CountNeighbors(neighbors: seq<Edge>, collaborators: map<Node, int>, exclude: Node?)
    returns (neighborMap: map<Node, int>)
    ensures neighborMap.Keys == set d | d in DestsOf(neighbors) && d in collaborators && d != exclude
    ensures forall d :: d in neighborMap ==> neighborMap[d] == EdgesTo(neighbors, d)
  {
    neighborMap := map[];
    var edge := 0;
    while edge < |neighbors|
      invariant 0 <= edge <= |neighbors|
      invariant neighborMap.Keys == set d | d in DestsOf(neighbors[..edge]) && d in collaborators && d != exclude
      invariant forall d :: d in neighborMap ==> neighborMap[d] == EdgesTo(neighbors[..edge], d)
    {
      DestsOfStep(neighbors, edge);
      var dest := neighbors[edge].dest;
      if dest in collaborators && dest != exclude {
        if dest !in neighborMap {
          EdgesToPositive(neighbors[..edge], dest);
          neighborMap := neighborMap[dest := 1];
        } else {
          neighborMap := neighborMap[dest := neighborMap[dest] + 1];
        }
      }
      edge := edge + 1;
    }
    assert neighbors[..edge] == neighbors;
  }

  /**
   * The priority loop (src/linkpredictor.cpp:80-86, 177-184): Σ of
   * `collaborators[k] * neighborMap[k]` over the keys, in whatever order
   * the map yields them.
   */
  method Priority(neighborMap: map<Node, int>, collaborators: map<Node, int>, ghost es: seq<Edge>, ghost ces: seq<Edge>)
    returns (priority: int)
    requires neighborMap.Keys <= collaborators.Keys
    requires forall d :: d in collaborators ==> collaborators[d] == EdgesTo(es, d)
    requires forall d :: d in neighborMap ==> neighborMap[d] == EdgesTo(ces, d)
    ensures priority == SumOver(neighborMap.Keys, es, ces)
  {
    priority := 0;
    var remaining := neighborMap.Keys;
    while remaining != {}
      invariant remaining <= neighborMap.Keys
      invariant priority + SumOver(remaining, es, ces) == SumOver(neighborMap.Keys, es, ces)
      decreases |remaining|
    {
      var k :| k in remaining;
      SumOverRemove(remaining, k, es, ces);
      var own, theirs := collaborators[k], neighborMap[k];
      assert own == EdgesTo(es, k) && theirs == EdgesTo(ces, k);
      priority := priority + own * theirs;
      remaining := remaining - {k};
    }
  }

  /**
   * One candidate's priority: its neighbour count, then the priority loop.
   * A collaborator excludes itself; a non-collaborator excludes nothing.
   */
  method ScoreOf(x: Node, collaborators: map<Node, int>, ghost es: seq<Edge>, exclude: Node?) returns (priority: int)
    requires collaborators.Keys == DestsOf(es)
    requires forall d :: d in collaborators ==> collaborators[d] == EdgesTo(es, d)
    requires exclude == x || (exclude == null && x !in DestsOf(es))
    ensures priority == Score(es, x)
  {
    var neighbors := x.GetEdges();
    var neighborMap := CountNeighbors(neighbors, collaborators, exclude);
    priority := Priority(neighborMap, collaborators, es, neighbors);
    forall n | n in DestsOf(es) - {x} && n !in neighborMap.Keys
      ensures EdgesTo(neighbors, n) == 0
    {
      EdgesToPositive(neighbors, n);
    }
    SumOverZeros(DestsOf(es) - {x}, neighborMap.Keys, es, neighbors);
  }

  /**
   * `predictCollaborate`: the top-ranked collaborators of a known actor, by
   * how much they work with the actor's other collaborators. Every name
   * returned is that of an actor the queried one shares a movie with.
   */
  method PredictCollaborate(g: ActorGraph, actorName: string) returns (top: seq<string>)
    requires g.Valid() && actorName in g.view.adj
    ensures IsTopRanking(top, ScoredSet(DestsOf(g.actorList[actorName].edges), g.actorList[actorName].edges))
    ensures forall k :: 0 <= k < |top| ==> top[k] in CoStars(g.view.adj[actorName])
  {
    var actor := g.GetActorNode(actorName);
    var edges := actor.GetEdges();
    var collaborators := CountCollaborators(edges);
    assert OwnedBy(actor, actor.edges, g.nodes, g.edges);
    assert NamesUnique(g.nodes);
    var closest := ScoreCollaborators(collaborators, collaborators.Keys, edges, g.nodes);
    top := RankTop(closest);
    forall k | 0 <= k < |top|
      ensures top[k] in CoStars(g.view.adj[actorName])
    {
      var x := CandidateName(top, DestsOf(edges), edges, k);
      var i :| 0 <= i < |edges| && edges[i].dest == x;
      assert LinksOf(edges)[i] in g.view.adj[actorName];
    }
  }

  /**
   * `predictCollaborate` with the actor left out of its own candidates, as
   * `predictNew` leaves it out (src/linkpredictor.cpp:145): the actor is
   * never returned.
   */
  method PredictCollaborateExcludingSelf(g: ActorGraph, actorName: string) returns (top: seq<string>)
    requires g.Valid() && actorName in g.view.adj
    ensures IsTopRanking(top, ScoredSet(DestsOf(g.actorList[actorName].edges) - {g.actorList[actorName]},
                                        g.actorList[actorName].edges))
    ensures forall k :: 0 <= k < |top| ==>
              top[k] != actorName && top[k] in CoStars(g.view.adj[actorName])
  {
    var actor := g.GetActorNode(actorName);
    var edges := actor.GetEdges();
    var collaborators := CountCollaborators(edges);
    assert OwnedBy(actor, actor.edges, g.nodes, g.edges);
    assert NamesUnique(g.nodes);
    var closest := ScoreCollaborators(collaborators, collaborators.Keys - {actor}, edges, g.nodes);
    top := RankTop(closest);
    forall k | 0 <= k < |top|
      ensures top[k] != actorName && top[k] in CoStars(g.view.adj[actorName])
    {
      var x := CandidateName(top, DestsOf(edges) - {actor}, edges, k);
      var i :| 0 <= i < |edges| && edges[i].dest == x;
      assert LinksOf(edges)[i] in g.view.adj[actorName];
    }
  }

  /**
   * As written, an actor whose only edges lead back to itself (an actor
   * listed twice for one movie) is its own sole collaborator, and
   * `predictCollaborate` returns exactly that actor.
   */
  lemma SelfCollaboratorReturned(actor: Node, top: seq<string>)
    requires |actor.edges| > 0 && forall i :: 0 <= i < |actor.edges| ==> actor.edges[i].dest == actor
    requires IsTopRanking(top, ScoredSet(DestsOf(actor.edges), actor.edges))
    ensures top == [actor.name]
  {
    var es := actor.edges;
    assert DestsOf(es) == {actor} by {
      assert es[0].dest in DestsOf(es);
    }
    assert ScoredSet(DestsOf(es), es) == {Scored(actor.name, Score(es, actor))};
    TopRankingMembers(top, ScoredSet(DestsOf(es), es));
    var x := CandidateName(top, DestsOf(es), es, 0);
  }

  /**
   * How an actor comes to collaborate with itself: the same record twice
   * links the actor to the cast so far, which is the actor, both ways.
   */
  lemma RepeatedRecordLinksActorToItself(m: Movie)
    ensures var g := AddRecord(AddRecord(EmptyGraph, "A", m), "A", m);
            g.adj.Keys == {"A"} && g.adj["A"] == [Link("A", "A", m), Link("A", "A", m)]
  {
    var g1 := AddRecord(EmptyGraph, "A", m);
    assert g1.casts[m] == ["A"] && g1.adj == map["A" := []];
    assert ["A"][..0] == [];
    assert Connect(g1.adj, "A", ["A"], m) == AddPair(g1.adj, "A", "A", m);
  }

  /** The collaborator loop (src/linkpredictor.cpp:56-91): one (name, priority) pair per node of `C`. */
  method ScoreCollaborators(collaborators: map<Node, int>, C: set<Node>, ghost es: seq<Edge>, ghost N: set<Node>)
    returns (closest: seq<Scored>)
    requires C <= collaborators.Keys && collaborators.Keys == DestsOf(es) && DestsOf(es) <= N && NamesUnique(N)
    requires forall d :: d in collaborators ==> collaborators[d] == EdgesTo(es, d)
    ensures Elems(closest) == ScoredSet(C, es)
    ensures NoDup(closest)
  {
    closest := [];
    var remaining := C;
    ghost var scored: map<Node, int> := map[];
    while remaining != {}
      invariant remaining <= C && scored.Keys == C - remaining
      invariant forall x :: x in scored ==> scored[x] == Score(es, x)
      invariant Elems(closest) == Pairs(scored) && NoDup(closest)
      decreases |remaining|
    {
      var c :| c in remaining;
      var priority := ScoreOf(c, collaborators, es, c);
      var name := c.GetName();
      PairsPush(closest, scored, N, c, priority);
      closest := closest + [Scored(name, priority)];
      remaining := remaining - {c};
      scored := scored[c := priority];
    }
    PairsScored(scored, C, es);
  }

  /** The inner loop of src/linkpredictor.cpp:142-154: the new ends of one collaborator's edges, at 0. */
  method AddNoncollabs(neighbors: seq<Edge>, collaborators: map<Node, int>, actor: Node, noncollabs: map<Node, int>)
    returns (noncollabs': map<Node, int>)
    ensures noncollabs'.Keys == noncollabs.Keys + NewDests(neighbors, collaborators.Keys, actor)
    ensures forall x :: x in noncollabs' ==> noncollabs'[x] == if x in noncollabs then noncollabs[x] else 0
  {
    noncollabs' := noncollabs;
    var edge := 0;
    while edge < |neighbors|
      invariant 0 <= edge <= |neighbors|
      invariant noncollabs'.Keys == noncollabs.Keys + NewDests(neighbors[..edge], collaborators.Keys, actor)
      invariant forall x :: x in noncollabs' ==> noncollabs'[x] == if x in noncollabs then noncollabs[x] else 0
    {
      DestsOfStep(neighbors, edge);
      var dest := neighbors[edge].dest;
      if dest !in collaborators && dest != actor {
        if dest !in noncollabs' {
          noncollabs' := noncollabs'[dest := 0];
        }
      }
      edge := edge + 1;
    }
    assert neighbors[..edge] == neighbors;
  }

  /** The candidate loop (src/linkpredictor.cpp:138-155), over the collaborators in map order. */
  method FindNoncollabs(collaborators: map<Node, int>, actor: Node) returns (noncollabs: map<Node, int>)
    ensures noncollabs.Keys == Reach(collaborators.Keys, collaborators.Keys, actor)
    ensures forall x :: x in noncollabs ==> noncollabs[x] == 0
  {
    noncollabs := map[];
    var remaining := collaborators.Keys;
    ghost var done: set<Node> := {};
    while remaining != {}
      invariant remaining <= collaborators.Keys && done == collaborators.Keys - remaining
      invariant noncollabs.Keys == Reach(done, collaborators.Keys, actor)
      invariant forall x :: x in noncollabs ==> noncollabs[x] == 0
      decreases |remaining|
    {
      var c :| c in remaining;
      var neighbors := c.GetEdges();
      noncollabs := AddNoncollabs(neighbors, collaborators, actor, noncollabs);
      ReachAdd(done, c, collaborators.Keys, actor);
      remaining := remaining - {c};
      done := done + {c};
    }
  }

  /** The scoring loop (src/linkpredictor.cpp:158-186): each candidate's entry becomes its priority. */
  method ScoreNoncollabs(noncollabs: map<Node, int>, collaborators: map<Node, int>, ghost es: seq<Edge>)
    returns (scored: map<Node, int>)
    requires collaborators.Keys == DestsOf(es)
    requires forall d :: d in collaborators ==> collaborators[d] == EdgesTo(es, d)
    requires forall x :: x in noncollabs ==> x !in DestsOf(es)
    ensures scored.Keys == noncollabs.Keys
    ensures forall x :: x in scored ==> scored[x] == Score(es, x)
  {
    scored := noncollabs;
    var remaining := noncollabs.Keys;
    while remaining != {}
      invariant remaining <= noncollabs.Keys && scored.Keys == noncollabs.Keys
      invariant forall x :: x in scored && x !in remaining ==> scored[x] == Score(es, x)
      decreases |remaining|
    {
      var x :| x in remaining;
      var priority := ScoreOf(x, collaborators, es, null);
      scored := scored[x := priority];
      remaining := remaining - {x};
    }
  }

  /** The listing loop (src/linkpredictor.cpp:188-194): one (name, priority) pair per key, in map order. */
  method ListScores(scores: map<Node, int>, ghost N: set<Node>) returns (all: seq<Scored>)
    requires scores.Keys <= N && NamesUnique(N)
    ensures Elems(all) == Pairs(scores)
    ensures NoDup(all)
  {
    all := [];
    var remaining := scores.Keys;
    ghost var listed: map<Node, int> := map[];
    while remaining != {}
      invariant remaining <= scores.Keys && listed.Keys == scores.Keys - remaining
      invariant forall x :: x in listed ==> listed[x] == scores[x]
      invariant Elems(all) == Pairs(listed) && NoDup(all)
      decreases |remaining|
    {
      var x :| x in remaining;
      var name := x.GetName();
      PairsPush(all, listed, N, x, scores[x]);
      all := all + [Scored(name, scores[x])];
      remaining := remaining - {x};
      listed := listed[x := scores[x]];
    }
    assert listed == scores;
  }

  /** Every edge of a node of `N` leads to a node of `N`. */
  ghost predicate DestsClosed(N: set<Node>)
    reads N`edges
  {
    forall n, i :: n in N && 0 <= i < |n.edges| ==> n.edges[i].dest in N
  }

  /**
   * `predictNew`: the top-ranked actors one collaborator away from a known
   * actor, by how much they work with the actor's collaborators. None of
   * them is the actor or one of its collaborators.
   */
  method PredictNew(g: ActorGraph, actorName: string) returns (top: seq<string>)
    requires g.Valid() && actorName in g.view.adj
    ensures IsTopRanking(top, ScoredSet(NewCandidates(g.actorList[actorName].edges, g.actorList[actorName]),
                                        g.actorList[actorName].edges))
    ensures forall k :: 0 <= k < |top| ==>
              top[k] != actorName && top[k] !in CoStars(g.view.adj[actorName])
  {
    var actor := g.GetActorNode(actorName);
    assert NamesUnique(g.nodes);
    assert DestsClosed(g.nodes) by {
      forall n, i | n in g.nodes && 0 <= i < |n.edges|
        ensures n.edges[i].dest in g.nodes
      {
        assert OwnedBy(n, n.edges, g.nodes, g.edges);
      }
    }
    top := PredictNewFor(actor, g.nodes);
    assert g.view.adj[actorName] == LinksOf(actor.edges);
  }

  /** The body of `predictNew` (src/linkpredictor.cpp:120-206) once the actor's node is found. */
  method PredictNewFor(actor: Node, ghost N: set<Node>) returns (top: seq<string>)
    requires actor in N && NamesUnique(N) && DestsClosed(N)
    ensures IsTopRanking(top, ScoredSet(NewCandidates(actor.edges, actor), actor.edges))
    ensures forall k :: 0 <= k < |top| ==>
              top[k] != actor.name && forall i :: 0 <= i < |actor.edges| ==> actor.edges[i].dest.name != top[k]
  {
    var allNoncollabs := ScoreNewCandidates(actor, N);
    top := RankTop(allNoncollabs);
    ghost var edges := actor.edges;
    ghost var cands := NewCandidates(edges, actor);
    forall k | 0 <= k < |top|
      ensures top[k] != actor.name && forall i :: 0 <= i < |edges| ==> edges[i].dest.name != top[k]
    {
      var x := CandidateName(top, cands, edges, k);
      NewCandidateNamesFresh(actor, edges, N, x);
    }
  }

  /** `predictNew` up to the sort (src/linkpredictor.cpp:125-194): each candidate's pair, once. */
  method ScoreNewCandidates(actor: Node, ghost N: set<Node>) returns (allNoncollabs: seq<Scored>)
    requires actor in N && NamesUnique(N) && DestsClosed(N)
    ensures Elems(allNoncollabs) == ScoredSet(NewCandidates(actor.edges, actor), actor.edges)
    ensures NoDup(allNoncollabs)
  {
    var edges := actor.GetEdges();
    var collaborators := CountCollaborators(edges);
    var noncollabs := FindNoncollabs(collaborators, actor);
    ghost var cands := NewCandidates(edges, actor);
    noncollabs := ScoreNoncollabs(noncollabs, collaborators, edges);
    assert cands <= N by {
      forall x | x in cands ensures x in N {
        var c, j :| c in DestsOf(edges) && 0 <= j < |c.edges| && c.edges[j].dest == x;
        var i :| 0 <= i < |edges| && edges[i].dest == c;
      }
    }
    allNoncollabs := ListScores(noncollabs, N);
    PairsScored(noncollabs, cands, edges);
  }

  /** The `k`-th name of a top ranking over `ScoredSet(C, es)` is the name of a node of `C`. */
  lemma CandidateName(top: seq<string>, C: set<Node>, es: seq<Edge>, k: int) returns (x: Node)
    requires IsTopRanking(top, ScoredSet(C, es)) && 0 <= k < |top|
    ensures x in C && x.name == top[k]
  {
    TopRankingMembers(top, ScoredSet(C, es));
    var p :| p in ScoredSet(C, es) && p.name == top[k];
    x :| x in C && p == Scored(x.name, Score(es, x));
  }

  /** A new candidate's name is neither the actor's nor that of a collaborator. */
  lemma NewCandidateNamesFresh(actor: Node, es: seq<Edge>, N: set<Node>, x: Node)
    requires x in NewCandidates(es, actor)
    requires actor in N && x in N && DestsOf(es) <= N && NamesUnique(N)
    ensures x.name != actor.name
    ensures forall i :: 0 <= i < |es| ==> es[i].dest.name != x.name
  {
    forall i | 0 <= i < |es|
      ensures es[i].dest.name != x.name
    {
      assert es[i].dest in DestsOf(es);
    }
  }

  /** `parseFile` over the file's lines (src/linkpredictor.cpp:214-234): every line but the header is an actor. */
  method ParseFile(lines: seq<string>) returns (actors: seq<string>)
    ensures lines == [] ==> actors == []
    ensures lines != [] ==> actors == lines[1..]
  {
    actors := [];
    var haveHeader := false;
    var i := 0;
    while i < |lines|
      invariant 0 <= i <= |lines|
      invariant haveHeader <==> i > 0
      invariant actors == if i == 0 then [] else lines[1..i]
    {
      if !haveHeader {
        haveHeader := true;
      } else {
        actors := actors + [lines[i]];
      }
      i := i + 1;
    }
  }
}
