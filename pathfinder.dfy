/**
 * The unweighted path search of src/pathfinder.cpp: `findUnweightedPath`, its
 * helper `clearEdges`, and the reading of the actor-pair file
 * (`parsePathFile`) over the file's lines.
 *
 * The search is a breadth-first walk over the nodes' edge lists. It never
 * marks a node as visited. It only checks self-loop edges (an actor listed
 * twice in one movie), and it follows every other edge that was unchecked on
 * entry, setting the end's back-pointer each time. Either of its two loops
 * may therefore run for ever. The queue loop never empties its queue when
 * the end is unknown or unreachable and the start has a neighbour. The
 * back-pointer walk may cycle even when the end is reached: a node popped
 * again overwrites the back-pointers of its neighbours, and these can come
 * to point round in a circle (search_findings.dfy shows such a graph). The
 * model gives each loop a `fuel` bound on its turns and answers `OutOfFuel`
 * when that runs out. A search that stops
 * answers as the source does, and its answer is correct: a returned path is a
 * walk over followable edges, and an empty answer for two different known
 * actors means that no such walk exists.
 */
module PathFinder {
  import opened Records
  import opened ActorNodes
  import opened ActorGraphs

  /** The answer of a search; `OutOfFuel` stands for a search that would not have stopped. */
  datatype Search = Returned(path: seq<Edge>) | OutOfFuel

  /** `p` leads from `s` to `t`: empty when `s == t`, otherwise each edge starts where the one before ends. */
  predicate IsChain(p: seq<Edge>, s: Node, t: Node) {
    && (p == [] ==> s == t)
    && (p != [] ==> p[0].src == s && p[|p| - 1].dest == t)
    && (forall i :: 0 <= i < |p| - 1 ==> p[i].dest == p[i + 1].src)
  }

  /** A chain of edges the search may follow: all of them from `open`. */
  predicate IsWalk(p: seq<Edge>, s: Node, t: Node, open: set<Edge>) {
    IsChain(p, s, t) && forall i :: 0 <= i < |p| ==> p[i] in open
  }

  /**
   * The edges a search can follow: those in a node's list that leave that
   * node, are not self-loops and are not checked.
   */
  ghost function OpenEdges(N: set<Node>, E: set<Edge>): set<Edge>
    reads N`edges, E`checked
  {
    set u, i | u in N && 0 <= i < |u.edges| && u.edges[i] in E && u.edges[i].src == u &&
               u.edges[i].dest != u && !u.edges[i].checked :: u.edges[i]
  }

  /** For a listed edge that is not a self-loop, `open` says whether it is unchecked. */
  ghost predicate OpenAgrees(N: set<Node>, E: set<Edge>, open: set<Edge>)
    reads N`edges, E`checked
  {
    forall u, i :: u in N && 0 <= i < |u.edges| && u.edges[i] in E && u.edges[i].src == u && u.edges[i].dest != u ==>
      (u.edges[i] in open <==> !u.edges[i].checked)
  }

  /** `S` is closed under following open edges out of its nodes. */
  ghost predicate ClosedUnder(S: set<Node>, open: set<Edge>)
    reads S`edges
  {
    forall u, i :: u in S && 0 <= i < |u.edges| && u.edges[i] in open ==> u.edges[i].dest in S
  }

  /** `v`'s back-pointer is an open edge into `v` from a node of `P`. */
  ghost predicate PrevOk(v: Node, P: set<Node>, open: set<Edge>)
    reads v`prev
  {
    v.prev != null && v.prev in open && v.prev.dest == v && v.prev.src in P
  }

  /** `v`'s back-pointer is an open edge into `v` from `u`. */
  ghost predicate PrevFrom(v: Node, u: Node, open: set<Edge>)
    reads v`prev
  {
    v.prev != null && v.prev in open && v.prev.dest == v && v.prev.src == u
  }

  /** The open edges agree with the state they were read from, and each sits in its source's list. */
  lemma OpenEdgesFacts(N: set<Node>, E: set<Edge>)
    requires EdgesOwned(N, E)
    ensures OpenAgrees(N, E, OpenEdges(N, E))
    ensures forall e :: e in OpenEdges(N, E) ==> e in e.src.edges && e.src in N && e.src != e.dest
  {
  }

  /**
   * The reason an empty answer is right: a set of nodes that holds the start
   * and is closed under open edges holds the end of every walk from the start.
   */
  lemma {:induction false} ClosedBlocks(p: seq<Edge>, s: Node, t: Node, S: set<Node>, open: set<Edge>)
    requires IsWalk(p, s, t, open) && s in S && ClosedUnder(S, open)
    requires forall e :: e in open ==> e in e.src.edges
    ensures t in S
    decreases |p|
  {
    if p != [] {
      var e := p[0];
      var i :| 0 <= i < |e.src.edges| && e.src.edges[i] == e;
      assert e.dest in S;
      ClosedBlocks(p[1..], e.dest, t, S, open);
    }
  }

  /**
   * `clearEdges`: every edge of `es` is unchecked and has its year weight
   * back; the frame leaves every other edge as it was.
   */
  method ClearEdges(es: seq<Edge>)
    modifies es`checked, es`weight
    ensures forall i :: 0 <= i < |es| ==> es[i].Pristine()
  {
    var edge := 0;
    while edge < |es|
      invariant 0 <= edge <= |es|
      invariant forall j :: 0 <= j < edge ==> es[j].Pristine()
    {
      es[edge].UnCheck();
      edge := edge + 1;
    }
  }

  /**
   * One turn's edge loop (src/pathfinder.cpp:73-91). A self-loop is checked
   * and recorded; a checked edge is skipped; any other edge has its end
   * queued, and that end's back-pointer becomes the edge.
   */
  method ExpandNode(current: Node, ghost N: set<Node>, ghost E: set<Edge>, ghost open: set<Edge>,
                    queue: seq<Node>, checked: seq<Edge>)
    returns (queue': seq<Node>, checked': seq<Edge>)
    requires current in N && EdgesOwned(N, E) && OpenAgrees(N, E, open)
    requires forall e :: e in open ==> e.src != e.dest
    modifies N`prev, E`checked
    ensures OpenAgrees(N, E, open)
    ensures |queue| <= |queue'| && queue'[..|queue|] == queue
    ensures forall j :: |queue| <= j < |queue'| ==> queue'[j] in N && PrevFrom(queue'[j], current, open)
    ensures forall i :: 0 <= i < |current.edges| && current.edges[i] in open ==> current.edges[i].dest in queue'
    ensures forall v :: v in N ==> v.prev == old(v.prev) || PrevFrom(v, current, open)
    ensures |checked| <= |checked'| && checked'[..|checked|] == checked
    ensures forall j :: |checked| <= j < |checked'| ==> checked'[j] in E && checked'[j].src == checked'[j].dest
    ensures forall e :: e in E ==> e.checked == old(e.checked) || e in checked'
    ensures forall e :: e in E && e.src != e.dest ==> e.checked == old(e.checked)
    ensures forall i :: 0 <= i < |current.edges| && current.edges[i].dest == current ==>
              current.edges[i].checked && current.edges[i] in checked'
  {
    var neighborEdges := current.GetEdges();
    assert OwnedBy(current, current.edges, N, E);
    queue' := queue;
    checked' := checked;
    var edge := 0;
    while edge < |neighborEdges|
      invariant 0 <= edge <= |neighborEdges|
      invariant OpenAgrees(N, E, open)
      invariant |queue| <= |queue'| && queue'[..|queue|] == queue
      invariant forall j :: |queue| <= j < |queue'| ==> queue'[j] in N && PrevFrom(queue'[j], current, open)
      invariant forall i :: 0 <= i < edge && neighborEdges[i] in open ==> neighborEdges[i].dest in queue'
      invariant forall v :: v in N ==> v.prev == old(v.prev) || PrevFrom(v, current, open)
      invariant |checked| <= |checked'| && checked'[..|checked|] == checked
      invariant forall j :: |checked| <= j < |checked'| ==> checked'[j] in E && checked'[j].src == checked'[j].dest
      invariant forall e :: e in E ==> e.checked == old(e.checked) || e in checked'
      invariant forall e :: e in E && e.src != e.dest ==> e.checked == old(e.checked)
      invariant forall i :: 0 <= i < edge && neighborEdges[i].dest == current ==>
                  neighborEdges[i].checked && neighborEdges[i] in checked'
    {
      var e := neighborEdges[edge];
      assert e in E && e.src == current && e.dest in N;
      var neighbor := e.GetDest();
      if neighbor == current {
        e.Check();
        checked' := checked' + [e];
      } else {
        var isChecked := e.IsChecked();
        assert e in open <==> !isChecked;
        if !isChecked {
          queue' := queue' + [neighbor];
          neighbor.SetPrev(e);
        }
      }
      edge := edge + 1;
    }
  }

  /**
   * What holds between two turns of the search: the queue and the popped
   * nodes are nodes of the graph, the end was never popped, the start was
   * popped or is all the queue holds, every open edge out of a popped node
   * leads to a popped or a queued node, and every popped or queued node but
   * the start has a back-pointer from a popped node.
   */
  ghost predicate Frontier(start: Node, end: Node?, N: set<Node>, open: set<Edge>, bfs: seq<Node>, popped: set<Node>)
    reads N`edges, N`prev
  {
    && (forall j :: 0 <= j < |bfs| ==> bfs[j] in N)
    && popped <= N && (end == null || end !in popped)
    && (start in popped || bfs == [start])
    && (forall u, i :: u in popped && 0 <= i < |u.edges| && u.edges[i] in open ==>
          u.edges[i].dest in popped || u.edges[i].dest in bfs)
    && (forall v :: v in N && (v in popped || v in bfs) && v != start ==> PrevOk(v, popped, open))
  }

  /**
   * A turn that pops a node other than the end (src/pathfinder.cpp:58-91):
   * after its edge loop the node counts as popped and the frontier
   * invariant holds again.
   */
  method Visit(start: Node, end: Node?, ghost N: set<Node>, ghost E: set<Edge>, ghost open: set<Edge>,
               current: Node, bfs: seq<Node>, ghost popped: set<Node>, checked: seq<Edge>)
    returns (bfs': seq<Node>, checked': seq<Edge>)
    requires EdgesOwned(N, E) && OpenAgrees(N, E, open)
    requires forall e :: e in open ==> e.src != e.dest
    requires Frontier(start, end, N, open, [current] + bfs, popped) && current != end
    modifies N`prev, E`checked
    ensures Frontier(start, end, N, open, bfs', popped + {current})
    ensures OpenAgrees(N, E, open)
    ensures |checked| <= |checked'| && checked'[..|checked|] == checked
    ensures forall j :: |checked| <= j < |checked'| ==> checked'[j] in E && checked'[j].src == checked'[j].dest
    ensures forall e :: e in E ==> e.checked == old(e.checked) || e in checked'
    ensures forall e :: e in E && e.src != e.dest ==> e.checked == old(e.checked)
  {
    assert ([current] + bfs)[0] == current;
    assert forall j :: 0 <= j < |bfs| ==> bfs[j] == ([current] + bfs)[j + 1];
    bfs', checked' := ExpandNode(current, N, E, open, bfs, checked);
    assert forall j :: 0 <= j < |bfs| ==> bfs'[j] == bfs[j];
  }

  /**
   * The back-pointer walk (src/pathfinder.cpp:65-71): from `end`, prepend its
   * back-pointer and step to that edge's source until `start` is reached.
   * Overwritten back-pointers can form a cycle that never reaches `start`,
   * so the walk takes `fuel` and answers `OutOfFuel` when it is spent.
   */
  method Reconstruct(start: Node, end: Node, ghost P: set<Node>, ghost open: set<Edge>, fuel: nat)
    returns (r: Search)
    requires end == start || PrevOk(end, P, open)
    requires forall v :: v in P && v != start ==> PrevOk(v, P, open)
    ensures r.Returned? ==> IsWalk(r.path, start, end, open)
    ensures start == end ==> r == Returned([])
  {
    var path: seq<Edge> := [];
    var current := end;
    var turns := fuel;
    while current != start
      invariant current == start || PrevOk(current, P, open)
      invariant IsWalk(path, current, end, open)
      invariant start == end ==> current == start && path == []
      decreases turns
    {
      if turns == 0 {
        return OutOfFuel;
      }
      turns := turns - 1;
      var e := current.GetPrev();
      path := [e] + path;
      current := e.GetSource();
    }
    return Returned(path);
  }

  /** How the queue loop ends: the end popped, the queue empty, or the fuel spent. */
  datatype Outcome = Reached | Emptied | Exhausted

  /**
   * The queue loop (src/pathfinder.cpp:50-92) up to the point where it
   * stops, before the checked edges are cleared. `popped` is the set of
   * nodes it expanded.
   */
  method Explore(start: Node, end: Node?, ghost N: set<Node>, ghost E: set<Edge>, ghost open: set<Edge>, fuel: nat)
    returns (outcome: Outcome, checked: seq<Edge>, ghost popped: set<Node>)
    requires start in N && EdgesOwned(N, E) && OpenAgrees(N, E, open)
    requires forall e :: e in open ==> e in e.src.edges && e.src != e.dest
    modifies N`prev, E`checked
    ensures outcome == Reached ==>
              end != null && (end == start || PrevOk(end, popped, open)) &&
              forall v :: v in popped && v != start ==> PrevOk(v, popped, open)
    ensures outcome == Emptied ==>
              start in popped && (end == null || end !in popped) && ClosedUnder(popped, open)
    ensures end == start && fuel > 0 ==> outcome == Reached
    ensures forall j :: 0 <= j < |checked| ==> checked[j] in E && checked[j].src == checked[j].dest
    ensures forall e :: e in E ==> e.checked == old(e.checked) || e in checked
  {
    var bfs := [start];
    checked := [];
    popped := {};
    var turns := fuel;
    while bfs != []
      invariant OpenAgrees(N, E, open)
      invariant Frontier(start, end, N, open, bfs, popped)
      invariant forall j :: 0 <= j < |checked| ==> checked[j] in E && checked[j].src == checked[j].dest
      invariant forall e :: e in E ==> e.checked == old(e.checked) || e in checked
      invariant start !in popped ==> turns == fuel
      decreases turns
    {
      if turns == 0 {
        return Exhausted, checked, popped;
      }
      turns := turns - 1;
      var current := bfs[0];
      bfs := bfs[1..];
      if current == end {
        return Reached, checked, popped;
      }
      bfs, checked := Visit(start, end, N, E, open, current, bfs, popped, checked);
      popped := popped + {current};
    }
    return Emptied, checked, popped;
  }

  /**
   * The search between two nodes of the graph (`end` null when the second
   * actor is unknown). Each of its two loops may take `fuel` turns.
   */
  method SearchFrom(start: Node, end: Node?, ghost N: set<Node>, ghost E: set<Edge>, fuel: nat)
    returns (r: Search)
    requires start in N && EdgesOwned(N, E)
    modifies N`prev, E`checked, E`weight
    ensures r.Returned? && r.path != [] ==> end != null && IsWalk(r.path, start, end, old(OpenEdges(N, E)))
    ensures r.Returned? && r.path == [] && end != null && end != start ==>
              forall p :: !IsWalk(p, start, end, old(OpenEdges(N, E)))
    ensures end == start && fuel > 0 ==> r == Returned([])
    ensures forall e :: e in E ==>
              (e.checked == old(e.checked) && e.weight == old(e.weight)) || (e.src == e.dest && e.Pristine())
  {
    ghost var open := OpenEdges(N, E);
    OpenEdgesFacts(N, E);
    var outcome, checked, popped := Explore(start, end, N, E, open, fuel);
    ClearEdges(checked);
    if outcome == Exhausted {
      return OutOfFuel;
    }
    if outcome == Reached {
      r := Reconstruct(start, end, popped, open, fuel);
      return;
    }
    if end != null && end != start {
      forall p | IsWalk(p, start, end, open)
        ensures false
      {
        ClosedBlocks(p, start, end, popped, open);
      }
    }
    return Returned([]);
  }

  /**
   * `findUnweightedPath`: the path from `actor1` to `actor2` as the search
   * finds it, empty when it finds none. The first actor must be known unless
   * the second is unknown too: otherwise the source reads a null node's edges.
   */
  method FindUnweightedPath(g: ActorGraph, actor1: string, actor2: string, fuel: nat) returns (r: Search)
    requires g.Valid()
    requires actor1 in g.view.adj || actor2 !in g.view.adj
    modifies g.nodes`prev, g.edges`checked, g.edges`weight
    ensures g.Valid()
    ensures actor1 !in g.view.adj ==> r == Returned([])
    ensures actor1 in g.view.adj && actor1 == actor2 && fuel > 0 ==> r == Returned([])
    ensures r.Returned? && r.path != [] ==>
              actor1 in g.view.adj && actor2 in g.view.adj &&
              IsWalk(r.path, g.actorList[actor1], g.actorList[actor2], old(OpenEdges(g.nodes, g.edges)))
    ensures r.Returned? && r.path == [] && actor1 in g.view.adj && actor2 in g.view.adj && actor1 != actor2 ==>
              forall p :: !IsWalk(p, g.actorList[actor1], g.actorList[actor2], old(OpenEdges(g.nodes, g.edges)))
    ensures forall e :: e in g.edges ==>
              (e.checked == old(e.checked) && e.weight == old(e.weight)) || (e.src == e.dest && e.Pristine())
    ensures forall e :: e in g.edges && !old(e.checked) ==> !e.checked
  {
    var start := g.GetActorNode(actor1);
    var end := g.GetActorNode(actor2);
    if start == null {
      // Both actors are unknown: the null start is queued, popped as the end,
      // and the back-pointer walk stops at once.
      return Returned([]);
    }
    ghost var open := OpenEdges(g.nodes, g.edges);
    r := SearchFrom(start, end, g.nodes, g.edges, fuel);
    assert end != null ==> start != end || actor1 == actor2;
  }

  /** One pair of actors to connect, as the path file lists it. */
  datatype Query = Query(first: string, second: string)

  /**
   * The pair a row's fields make: the first field is the first actor and
   * every later field overwrites the second, so the last one wins; a missing
   * field leaves the empty string.
   */
  function QueryOf(fields: seq<string>): Query {
    Query(if |fields| >= 1 then fields[0] else "", if |fields| >= 2 then fields[|fields| - 1] else "")
  }

  /** The pairs of the data rows, a row whose first actor is empty dropped. */
  function PairsOf(rows: seq<string>): seq<Query>
    decreases |rows|
  {
    if rows == [] then []
    else
      var q := QueryOf(Fields(rows[|rows| - 1]));
      PairsOf(rows[..|rows| - 1]) + (if q.first == "" then [] else [q])
  }

  /** What `parsePathFile` returns for a file of these lines: the first line is the header. */
  function PathFile(lines: seq<string>): seq<Query> {
    if lines == [] then [] else PairsOf(lines[1..])
  }

  /** The field loop of one row (src/pathfinder.cpp:138-158). */
  method ReadPair(line: string) returns (actors: Query)
    ensures actors == QueryOf(Fields(line))
  {
    var record := SplitRecord(line);
    actors := Query("", "");
    var pos := 1;
    while pos <= |record|
      invariant 1 <= pos <= |record| + 1
      invariant actors == QueryOf(record[..pos - 1])
    {
      if pos == 1 {
        actors := actors.(first := record[pos - 1]);
      } else {
        actors := actors.(second := record[pos - 1]);
      }
      pos := pos + 1;
    }
    assert record[..pos - 1] == record;
  }

  /** `parsePathFile` over the file's lines (src/pathfinder.cpp:116-168). */
  method ParsePathFile(lines: seq<string>) returns (actorList: seq<Query>)
    ensures actorList == PathFile(lines)
  {
    actorList := [];
    var haveHeader := false;
    var i := 0;
    while i < |lines|
      invariant 0 <= i <= |lines|
      invariant haveHeader <==> i > 0
      invariant actorList == (if i == 0 then [] else PairsOf(lines[1..i]))
    {
      if !haveHeader {
        haveHeader := true;
        assert lines[1..1] == [];
      } else {
        var actors := ReadPair(lines[i]);
        assert lines[1..i + 1][..i - 1] == lines[1..i];
        if actors.first != "" {
          actorList := actorList + [actors];
        }
      }
      i := i + 1;
    }
    if lines != [] {
      assert lines[1..i] == lines[1..];
    }
  }

  /** A row written from two non-empty, tab-free names is read back as that pair. */
  lemma QueryRoundTrip(a: string, b: string)
    requires a != "" && b != "" && NoTab(a) && NoTab(b)
    ensures QueryOf(Fields(a + [TAB] + b)) == Query(a, b)
  {
    assert [a, b][..1] == [a];
    assert JoinTabs([a, b]) == a + [TAB] + b;
    FieldsOfJoin([a, b]);
  }

  /** The rows the path file holds for a list of pairs: the two names, a tab between. */
  function RowsOf(qs: seq<Query>): (rows: seq<string>)
    ensures |rows| == |qs|
    decreases |qs|
  {
    if qs == [] then [] else RowsOf(qs[..|qs| - 1]) + [qs[|qs| - 1].first + [TAB] + qs[|qs| - 1].second]
  }

  /** Pairs of non-empty, tab-free names. */
  predicate Writable(qs: seq<Query>) {
    forall k :: 0 <= k < |qs| ==> qs[k].first != "" && qs[k].second != "" && NoTab(qs[k].first) && NoTab(qs[k].second)
  }

  /** Data rows written from such pairs are read back as exactly those pairs. */
  lemma {:induction false} PairsOfRows(qs: seq<Query>)
    requires Writable(qs)
    ensures PairsOf(RowsOf(qs)) == qs
    decreases |qs|
  {
    if qs != [] {
      var init := qs[..|qs| - 1];
      var last := qs[|qs| - 1];
      assert Writable(init) by {
        forall k | 0 <= k < |init| ensures init[k] == qs[k] { }
      }
      PairsOfRows(init);
      var rows := RowsOf(qs);
      assert rows[..|rows| - 1] == RowsOf(init);
      QueryRoundTrip(last.first, last.second);
      assert qs == init + [last];
    }
  }

  /**
   * A file written as a header and one row per pair is read back as exactly
   * those pairs, whatever the header says.
   */
  lemma PathFileRoundTrip(header: string, qs: seq<Query>)
    requires Writable(qs)
    ensures PathFile([header] + RowsOf(qs)) == qs
  {
    assert ([header] + RowsOf(qs))[1..] == RowsOf(qs);
    PairsOfRows(qs);
  }

  /** No pair read has an empty first actor, and no file yields more pairs than it has data rows. */
  lemma {:induction false} PairsOfFacts(rows: seq<string>)
    ensures |PairsOf(rows)| <= |rows|
    ensures forall k :: 0 <= k < |PairsOf(rows)| ==> PairsOf(rows)[k].first != ""
    decreases |rows|
  {
    if rows != [] {
      PairsOfFacts(rows[..|rows| - 1]);
    }
  }
}
