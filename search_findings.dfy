/**
 * The two loops of `findUnweightedPath` (src/pathfinder.cpp:56-92 and
 * 66-70) on the abstract graph of graph_spec.dfy, with actors as names, side
 * by side with the search the code evidently intends.
 *
 * As written, every end of a followable edge is queued again and its
 * back-pointer overwritten each time (lines 89-90). The back-pointers can
 * then form a cycle that the reconstruction walk follows for ever, even
 * though the end was reached. Intended is a breadth-first search that
 * queues a node and sets its back-pointer only when it first discovers it;
 * then the walk always leads back to the start.
 *
 * Only edges unchecked on entry are followed by the source, and between
 * searches every edge is unchecked (`clearEdges` resets the self-loops, the
 * only edges a search checks). So on names, the edge rule is: skip
 * self-loops, follow everything else.
 */
module SearchFindings {
  import opened Movies
  import opened GraphSpec

  /** The queue of the search and the back-pointer of each node that has one. */
  datatype Frontier = Frontier(queue: seq<string>, prev: map<string, Link>)

  /** How the queue loop ends: with the back-pointers when the end is popped, or without the end. */
  datatype Popped = EndPopped(prev: map<string, Link>) | NotPopped

  /** How the back-pointer walk ends: with the path, or still walking when its fuel is spent. */
  datatype Walked = Walk(path: seq<Link>) | Stuck

  /** The edges of `u`, or none for a name with no node. */
  function EdgesOf(adj: map<string, seq<Link>>, u: string): seq<Link> {
    if u in adj then adj[u] else []
  }

  /** `p` leads from `s` to `t` over edges of `adj`, each stored on its source's list. */
  ghost predicate IsLinkWalk(p: seq<Link>, s: string, t: string, adj: map<string, seq<Link>>) {
    && (p == [] ==> s == t)
    && (p != [] ==> p[0].src == s && p[|p| - 1].dest == t)
    && (forall i :: 0 <= i < |p| - 1 ==> p[i].dest == p[i + 1].src)
    && (forall i :: 0 <= i < |p| ==> p[i].src in adj && p[i] in adj[p[i].src])
  }

  // ---------------------------------------------------------------------
  // As written

  /** Lines 73-91 for the edges `es` of `u`: skip self-loops, queue every other end and point it back. */
  function Expand(es: seq<Link>, u: string, f: Frontier): Frontier
    decreases |es|
  {
    if es == [] then f
    else if es[0].dest == u then Expand(es[1..], u, f)
    else Expand(es[1..], u, Frontier(f.queue + [es[0].dest], f.prev[es[0].dest := es[0]]))
  }

  /** The queue loop, lines 56-92, for at most `fuel` pops. */
  function Search(adj: map<string, seq<Link>>, end: string, f: Frontier, fuel: nat): Popped
    decreases fuel
  {
    if fuel == 0 || f.queue == [] then NotPopped
    else if f.queue[0] == end then EndPopped(f.prev)
    else Search(adj, end, Expand(EdgesOf(adj, f.queue[0]), f.queue[0], Frontier(f.queue[1..], f.prev)), fuel - 1)
  }

  /** The back-pointer walk, lines 66-70, for at most `fuel` steps. */
  function BackWalk(prev: map<string, Link>, start: string, cur: string, fuel: nat): Walked
    decreases fuel
  {
    if cur == start then Walk([])
    else if fuel == 0 || cur !in prev then Stuck
    else match BackWalk(prev, start, prev[cur].src, fuel - 1)
      case Stuck => Stuck
      case Walk(p) => Walk(p + [prev[cur]])
  }

  const M1: Movie := Movie("M1", 2001)
  const M2: Movie := Movie("M2", 2002)
  const M3: Movie := Movie("M3", 2003)

  /**
   * The records `A M1`, `B M1`, `B M2`, `C M2`, `C M3`, `D M3`: a chain
   * A - B - C - D. (With two actors per movie and three titles, the loader as
   * written builds the same graph.)
   */
  function ChainGraph(): GraphVal {
    var g1 := AddRecord(AddRecord(EmptyGraph, "A", M1), "B", M1);
    var g2 := AddRecord(AddRecord(g1, "B", M2), "C", M2);
    AddRecord(AddRecord(g2, "C", M3), "D", M3)
  }

  /** A movie's first two records, the second actor new: one edge each way, a cast of two. */
  lemma PairRecords(g: GraphVal, x: string, y: string, m: Movie)
    requires Closed(g) && m !in g.casts && y !in g.adj && x != y
    ensures var adj := WithActor(g.adj, x);
            AddRecord(AddRecord(g, x, m), y, m) ==
            GraphVal(adj[x := adj[x] + [Link(x, y, m)]][y := [Link(y, x, m)]], g.casts[m := [x, y]])
  {
    var adj := WithActor(g.adj, x);
    var g1 := AddRecord(g, x, m);
    assert g1 == GraphVal(adj, g.casts[m := [x]]);
    var adj2 := adj[y := []];
    assert WithActor(g1.adj, y) == adj2;
    assert [x][..0] == [];
    assert Connect(adj2, y, [x], m) == AddPair(adj2, y, x, m);
    assert adj2[y] + [Link(y, x, m)] == [Link(y, x, m)];
    var adj3 := adj2[y := [Link(y, x, m)]];
    assert adj3[x] == adj[x];
    assert AddPair(adj2, y, x, m) == adj3[x := adj[x] + [Link(x, y, m)]];
    assert adj3[x := adj[x] + [Link(x, y, m)]] == adj[x := adj[x] + [Link(x, y, m)]][y := [Link(y, x, m)]];
    assert [x] + [y] == [x, y];
  }

  /** The edge lists of a chain A - B - C - D, one movie per link. */
  const ChainAdj: map<string, seq<Link>> := map[
    "A" := [Link("A", "B", M1)],
    "B" := [Link("B", "A", M1), Link("B", "C", M2)],
    "C" := [Link("C", "B", M2), Link("C", "D", M3)],
    "D" := [Link("D", "C", M3)]]

  /** The six records load into exactly the edge lists `ChainAdj`. */
  lemma ChainGraphEdges()
    ensures ChainGraph().adj == ChainAdj
  {
    var lAB, lBA, lBC, lCB, lCD, lDC := Link("A", "B", M1), Link("B", "A", M1), Link("B", "C", M2),
                                        Link("C", "B", M2), Link("C", "D", M3), Link("D", "C", M3);
    PairRecords(EmptyGraph, "A", "B", M1);
    var g1 := AddRecord(AddRecord(EmptyGraph, "A", M1), "B", M1);
    assert WithActor(map[], "A")["A"] + [lAB] == [lAB];
    assert g1 == GraphVal(map["A" := [lAB], "B" := [lBA]], map[M1 := ["A", "B"]]);
    PairRecords(g1, "B", "C", M2);
    var g2 := AddRecord(AddRecord(g1, "B", M2), "C", M2);
    assert WithActor(g1.adj, "B") == g1.adj && [lBA] + [lBC] == [lBA, lBC];
    assert g2.adj == g1.adj["B" := [lBA, lBC]]["C" := [lCB]];
    assert g2 == GraphVal(map["A" := [lAB], "B" := [lBA, lBC], "C" := [lCB]], map[M1 := ["A", "B"], M2 := ["B", "C"]]);
    PairRecords(g2, "C", "D", M3);
    assert WithActor(g2.adj, "C") == g2.adj && [lCB] + [lCD] == [lCB, lCD];
    assert ChainGraph().adj == g2.adj["C" := [lCB, lCD]]["D" := [lDC]];
    assert ChainGraph().adj == map["A" := [lAB], "B" := [lBA, lBC], "C" := [lCB, lCD], "D" := [lDC]];
  }

  /** Expanding a node with one edge, not a self-loop. */
  lemma ExpandOne(e: Link, u: string, f: Frontier)
    requires e.dest != u
    ensures Expand([e], u, f) == Frontier(f.queue + [e.dest], f.prev[e.dest := e])
  {
    assert [e][1..] == [];
  }

  /** Expanding a node with two edges, neither a self-loop: both ends queued in order, the later pointer last. */
  lemma ExpandTwo(e1: Link, e2: Link, u: string, f: Frontier)
    requires e1.dest != u && e2.dest != u
    ensures Expand([e1, e2], u, f) == Frontier(f.queue + [e1.dest, e2.dest], f.prev[e1.dest := e1][e2.dest := e2])
  {
    assert [e1, e2][1..] == [e2];
    ExpandOne(e2, u, Frontier(f.queue + [e1.dest], f.prev[e1.dest := e1]));
    assert f.queue + [e1.dest] + [e2.dest] == f.queue + [e1.dest, e2.dest];
  }

  /** Back-pointers B to C and C to B, and D to C: no walk from B, C or D ever reaches A. */
  lemma {:induction false} TwoCycleStuck(prev: map<string, Link>, n: nat)
    requires "B" in prev && "C" in prev && "D" in prev
    requires prev["B"].src == "C" && prev["C"].src == "B" && prev["D"].src == "C"
    ensures BackWalk(prev, "A", "B", n) == Stuck && BackWalk(prev, "A", "C", n) == Stuck
    ensures BackWalk(prev, "A", "D", n) == Stuck
  {
    if n > 0 {
      TwoCycleStuck(prev, n - 1);
    }
  }

  /** One turn of the queue loop that does not pop the end. */
  lemma SearchStep(adj: map<string, seq<Link>>, end: string, f: Frontier, fuel: nat, g: Frontier)
    requires fuel > 0 && f.queue != [] && f.queue[0] != end
    requires Expand(EdgesOf(adj, f.queue[0]), f.queue[0], Frontier(f.queue[1..], f.prev)) == g
    ensures Search(adj, end, f, fuel) == Search(adj, end, g, fuel - 1)
  {
  }

  /** The six turns of the queue loop for A to D on `ChainGraph`, and the back-pointers when D is popped. */
  lemma ChainSearch() returns (prev: map<string, Link>)
    ensures Search(ChainAdj, "D", Frontier(["A"], map[]), 7) == EndPopped(prev)
    ensures "B" in prev && "C" in prev && "D" in prev
    ensures prev["D"] == Link("C", "D", M3) && prev["C"] == Link("B", "C", M2) && prev["B"] == Link("C", "B", M2)
  {
    var adj := ChainAdj;
    var lAB, lBA, lBC, lCB, lCD := Link("A", "B", M1), Link("B", "A", M1), Link("B", "C", M2), Link("C", "B", M2), Link("C", "D", M3);
    var p1 := map[]["B" := lAB];
    var p2 := p1["A" := lBA]["C" := lBC];
    var p3 := p2["B" := lAB];
    var p4 := p3["B" := lCB]["D" := lCD];
    var p5 := p4["A" := lBA]["C" := lBC];
    var p6 := p5["A" := lBA]["C" := lBC];
    var q1, q2, q3, q4, q5, q6 := ["B"], ["A", "C"], ["C", "B"], ["B", "B", "D"], ["B", "D", "A", "C"], ["D", "A", "C", "A", "C"];
    ExpandOne(lAB, "A", Frontier(["A"][1..], map[]));
    assert ["A"][1..] + ["B"] == q1;
    SearchStep(adj, "D", Frontier(["A"], map[]), 7, Frontier(q1, p1));
    ExpandTwo(lBA, lBC, "B", Frontier(q1[1..], p1));
    assert q1[1..] + ["A", "C"] == q2;
    SearchStep(adj, "D", Frontier(q1, p1), 6, Frontier(q2, p2));
    ExpandOne(lAB, "A", Frontier(q2[1..], p2));
    assert q2[1..] + ["B"] == q3;
    SearchStep(adj, "D", Frontier(q2, p2), 5, Frontier(q3, p3));
    ExpandTwo(lCB, lCD, "C", Frontier(q3[1..], p3));
    assert q3[1..] + ["B", "D"] == q4;
    SearchStep(adj, "D", Frontier(q3, p3), 4, Frontier(q4, p4));
    ExpandTwo(lBA, lBC, "B", Frontier(q4[1..], p4));
    assert q4[1..] + ["A", "C"] == q5;
    SearchStep(adj, "D", Frontier(q4, p4), 3, Frontier(q5, p5));
    ExpandTwo(lBA, lBC, "B", Frontier(q5[1..], p5));
    assert q5[1..] + ["A", "C"] == q6;
    SearchStep(adj, "D", Frontier(q5, p5), 2, Frontier(q6, p6));
    prev := p6;
  }

  /** D is reachable from A in `ChainAdj`: A -> B -> C -> D. */
  lemma ChainReachable()
    ensures IsLinkWalk([Link("A", "B", M1), Link("B", "C", M2), Link("C", "D", M3)], "A", "D", ChainAdj)
  {
    var p := [Link("A", "B", M1), Link("B", "C", M2), Link("C", "D", M3)];
    assert p[0] in ChainAdj["A"] && p[1] in ChainAdj["B"] && p[2] in ChainAdj["C"];
  }

  /**
   * Query A to D on `ChainGraph`, as written: D is reachable (by the walk
   * A-B-C-D) and is popped, but by then B's back-pointer has been
   * overwritten with C -> B, so the walk from D goes D, C, B, C, B, ...
   * and never returns, whatever its fuel.
   */
  lemma BackPointerWalkCycles()
    ensures ChainGraph().adj == ChainAdj
    ensures IsLinkWalk([Link("A", "B", M1), Link("B", "C", M2), Link("C", "D", M3)], "A", "D", ChainAdj)
    ensures Search(ChainAdj, "D", Frontier(["A"], map[]), 7).EndPopped?
    ensures forall n: nat :: BackWalk(Search(ChainAdj, "D", Frontier(["A"], map[]), 7).prev, "A", "D", n) == Stuck
  {
    ChainGraphEdges();
    ChainReachable();
    var prev := ChainSearch();
    forall n: nat
      ensures BackWalk(prev, "A", "D", n) == Stuck
    {
      TwoCycleStuck(prev, n);
    }
  }

  // ---------------------------------------------------------------------
  // As intended

  /** The expansion with discovery marks: an end is queued and pointed back only when it is new. */
  function ExpandMarked(es: seq<Link>, u: string, start: string, f: Frontier): Frontier
    decreases |es|
  {
    if es == [] then f
    else
      var d := es[0].dest;
      if d == u || d == start || d in f.prev then ExpandMarked(es[1..], u, start, f)
      else ExpandMarked(es[1..], u, start, Frontier(f.queue + [d], f.prev[d := es[0]]))
  }

  /** The queue loop with discovery marks. */
  function SearchMarked(adj: map<string, seq<Link>>, start: string, end: string, f: Frontier, fuel: nat): Popped
    decreases fuel
  {
    if fuel == 0 || f.queue == [] then NotPopped
    else if f.queue[0] == end then EndPopped(f.prev)
    else SearchMarked(adj, start, end, ExpandMarked(EdgesOf(adj, f.queue[0]), f.queue[0], start, Frontier(f.queue[1..], f.prev)), fuel - 1)
  }

  /**
   * `rank` numbers the discovered nodes, the start 0: every back-pointer is
   * an edge of the graph into its node from a node of lower rank, and no
   * rank exceeds the number of back-pointers.
   */
  ghost predicate Ranked(adj: map<string, seq<Link>>, start: string, prev: map<string, Link>, rank: map<string, nat>) {
    && start in rank && rank[start] == 0 && start !in prev
    && (forall v :: v in rank ==> v == start || v in prev)
    && (forall v :: v in rank ==> rank[v] <= |prev|)
    && (forall v :: v in prev ==>
          && v in rank && prev[v].dest == v && prev[v].src in rank && rank[prev[v].src] < rank[v]
          && prev[v].src in adj && prev[v] in adj[prev[v].src])
  }

  ghost predicate QueueRanked(queue: seq<string>, rank: map<string, nat>) {
    forall k :: 0 <= k < |queue| ==> queue[k] in rank
  }

  /** Expanding a discovered node keeps every node numbered and every queued node discovered. */
  lemma {:induction false} ExpandMarkedRanked(adj: map<string, seq<Link>>, es: seq<Link>, u: string, start: string,
                                              f: Frontier, rank: map<string, nat>)
    returns (rank': map<string, nat>)
    requires Ranked(adj, start, f.prev, rank) && QueueRanked(f.queue, rank) && u in rank
    requires u in adj && forall i :: 0 <= i < |es| ==> es[i].src == u && es[i] in adj[u]
    ensures Ranked(adj, start, ExpandMarked(es, u, start, f).prev, rank')
    ensures QueueRanked(ExpandMarked(es, u, start, f).queue, rank')
    decreases |es|
  {
    if es == [] {
      rank' := rank;
    } else {
      var d := es[0].dest;
      assert forall i :: 0 <= i < |es[1..]| ==> es[1..][i] == es[i + 1];
      if d == u || d == start || d in f.prev {
        rank' := ExpandMarkedRanked(adj, es[1..], u, start, f, rank);
      } else {
        var f' := Frontier(f.queue + [d], f.prev[d := es[0]]);
        var r := rank[d := |f.prev| + 1];
        assert d !in rank;
        assert |f'.prev| == |f.prev| + 1;
        assert Ranked(adj, start, f'.prev, r);
        rank' := ExpandMarkedRanked(adj, es[1..], u, start, f', r);
      }
    }
  }

  /** The queue loop with marks ends, if it pops the end at all, with the end discovered and the pointers ranked. */
  lemma {:induction false} SearchMarkedRanked(adj: map<string, seq<Link>>, start: string, end: string, f: Frontier,
                                              fuel: nat, rank: map<string, nat>)
    returns (rank': map<string, nat>)
    requires EdgesWellFormed(adj) && Ranked(adj, start, f.prev, rank) && QueueRanked(f.queue, rank)
    ensures SearchMarked(adj, start, end, f, fuel).EndPopped? ==>
              Ranked(adj, start, SearchMarked(adj, start, end, f, fuel).prev, rank') && end in rank'
    decreases fuel
  {
    rank' := rank;
    if fuel > 0 && f.queue != [] {
      var u := f.queue[0];
      if u != end {
        var g := Frontier(f.queue[1..], f.prev);
        var es := EdgesOf(adj, u);
        var r := rank;
        if u in adj {
          r := ExpandMarkedRanked(adj, es, u, start, g, rank);
        }
        rank' := SearchMarkedRanked(adj, start, end, ExpandMarked(es, u, start, g), fuel - 1, r);
      }
    }
  }

  /** From a discovered node, the walk along ranked back-pointers reaches the start within its rank. */
  lemma {:induction false} RankedBackWalk(adj: map<string, seq<Link>>, start: string, prev: map<string, Link>,
                                          rank: map<string, nat>, v: string, fuel: nat)
    requires Ranked(adj, start, prev, rank) && v in rank && rank[v] <= fuel
    ensures BackWalk(prev, start, v, fuel).Walk?
    ensures IsLinkWalk(BackWalk(prev, start, v, fuel).path, start, v, adj)
    decreases fuel
  {
    if v != start {
      var e := prev[v];
      RankedBackWalk(adj, start, prev, rank, e.src, fuel - 1);
      var p := BackWalk(prev, start, e.src, fuel - 1).path;
      var q := p + [e];
      assert forall i :: 0 <= i < |p| ==> q[i] == p[i];
    }
  }

  /**
   * With discovery marks, whenever the end is popped the back-pointer walk
   * returns within as many steps as there are back-pointers, and what it
   * returns is a walk from the start to the end over edges of the graph.
   */
  lemma MarkedSearchReturnsWalk(adj: map<string, seq<Link>>, start: string, end: string, fuel: nat)
    requires EdgesWellFormed(adj)
    ensures var r := SearchMarked(adj, start, end, Frontier([start], map[]), fuel);
            r.EndPopped? ==>
              BackWalk(r.prev, start, end, |r.prev|).Walk? &&
              IsLinkWalk(BackWalk(r.prev, start, end, |r.prev|).path, start, end, adj)
  {
    var rank := map[start := 0];
    assert Ranked(adj, start, map[], rank);
    var rank' := SearchMarkedRanked(adj, start, end, Frontier([start], map[]), fuel, rank);
    var r := SearchMarked(adj, start, end, Frontier([start], map[]), fuel);
    if r.EndPopped? {
      RankedBackWalk(adj, start, r.prev, rank', end, |r.prev|);
    }
  }
}
