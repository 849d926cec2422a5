/**
 * What `ActorGraph::loadFromFile` (src/ActorGraph/ActorGraph.cpp) builds, as a
 * value: for every actor name the ordered list of its outgoing edges (each
 * seen as source name, destination name and movie), and for every movie the
 * ordered cast. Node identity is the actor name, which the builder keeps
 * unique (one node per name, created at first encounter).
 *
 * Two defects of the C++ are corrected here; load_findings.dfy models them as
 * written and shows what goes wrong:
 *  - the cast is read into a local copy (ActorGraph.cpp:94), so the append at
 *    line 116 never reaches the map; here the stored cast grows, as the
 *    comment at lines 105-106 and test/testActorGraph.cpp:29-43 require;
 *  - the movie map is keyed and the edges are labelled by the bare title
 *    (lines 79, 107); here both use `Movie(title, year)`, the key type the
 *    header declares (ActorGraph.hpp:31) and the test looks casts up by.
 */
module GraphSpec {
  import opened Movies
  import opened Records

  /** One directed edge: from actor `src` to actor `dest`, for `movie`. */
  datatype Link = Link(src: string, dest: string, movie: Movie)

  datatype GraphVal = GraphVal(adj: map<string, seq<Link>>, casts: map<Movie, seq<string>>)

  const EmptyGraph: GraphVal := GraphVal(map[], map[])

  /** Every cast member has a node (an entry in `adj`). */
  ghost predicate Closed(g: GraphVal) {
    forall m, i :: m in g.casts && 0 <= i < |g.casts[m]| ==> g.casts[m][i] in g.adj
  }

  /** The pair of edges for one co-star `c`: `actor -> c` first, then `c -> actor`. */
  function AddPair(adj: map<string, seq<Link>>, actor: string, c: string, m: Movie): map<string, seq<Link>>
    requires actor in adj && c in adj
  {
    var adj1 := adj[actor := adj[actor] + [Link(actor, c, m)]];
    adj1[c := adj1[c] + [Link(c, actor, m)]]
  }

  /** The edge pairs between `actor` and each member of `cast`, in cast order. */
  function Connect(adj: map<string, seq<Link>>, actor: string, cast: seq<string>, m: Movie): (r: map<string, seq<Link>>)
    requires actor in adj && forall i :: 0 <= i < |cast| ==> cast[i] in adj
    ensures r.Keys == adj.Keys
    decreases |cast|
  {
    if cast == [] then adj
    else AddPair(Connect(adj, actor, cast[..|cast| - 1], m), actor, cast[|cast| - 1], m)
  }

  /** `acc` holds the edge pairs between `actor` and the first `i` members of `cast`. */
  ghost predicate ConnectedUpTo(acc: map<string, seq<Link>>, adj: map<string, seq<Link>>, actor: string, cast: seq<string>, i: int, m: Movie) {
    actor in adj && (forall j :: 0 <= j < |cast| ==> cast[j] in adj) && 0 <= i <= |cast| &&
    acc == Connect(adj, actor, cast[..i], m)
  }

  /** One more cast member: `Connect` over a longer prefix is one more `AddPair`. */
  lemma ConnectStep(acc: map<string, seq<Link>>, adj: map<string, seq<Link>>, actor: string, cast: seq<string>, i: int, m: Movie)
    requires ConnectedUpTo(acc, adj, actor, cast, i, m) && i < |cast|
    ensures actor in acc && cast[i] in acc
    ensures ConnectedUpTo(AddPair(acc, actor, cast[i], m), adj, actor, cast, i + 1, m)
  {
    assert cast[..i + 1][..i] == cast[..i];
  }

  /** The node map after looking up `actor`: an existing node is kept, a new one starts with no edges. */
  function WithActor(adj: map<string, seq<Link>>, actor: string): map<string, seq<Link>> {
    if actor in adj then adj else adj[actor := []]
  }

  /**
   * One record (actor, movie): the first record of a movie only makes the
   * cast `[actor]`; a later one links the actor with every member of the
   * cast so far and then appends the actor to the cast.
   */
  function AddRecord(g: GraphVal, actor: string, m: Movie): (r: GraphVal)
    requires Closed(g)
    ensures Closed(r)
  {
    var adj := WithActor(g.adj, actor);
    if m !in g.casts then GraphVal(adj, g.casts[m := [actor]])
    else GraphVal(Connect(adj, actor, g.casts[m], m), g.casts[m := g.casts[m] + [actor]])
  }

  /** A data line whose year field `stoi` can read: 3 fields, the third all digits. */
  predicate YearReadable(line: string) {
    |Fields(line)| == 3 ==> IsDigits(Fields(line)[2])
  }

  predicate RowsReadable(rows: seq<string>) {
    forall i :: 0 <= i < |rows| ==> YearReadable(rows[i])
  }

  /** One data line: anything but exactly three fields is skipped. */
  function AddLine(g: GraphVal, line: string): (r: GraphVal)
    requires Closed(g) && YearReadable(line)
    ensures Closed(r)
  {
    var f := Fields(line);
    if |f| != 3 then g else AddRecord(g, f[0], Movie(f[1], DigitsValue(f[2])))
  }

  /** The data lines, in order. */
  function Build(g: GraphVal, rows: seq<string>): (r: GraphVal)
    requires Closed(g) && RowsReadable(rows)
    ensures Closed(r)
    decreases |rows|
  {
    if rows == [] then g else AddLine(Build(g, rows[..|rows| - 1]), rows[|rows| - 1])
  }

  /** One more data line: `Build` over a longer prefix is one more `AddLine`. */
  lemma BuildStep(g: GraphVal, rows: seq<string>, i: int)
    requires Closed(g) && RowsReadable(rows) && 0 <= i < |rows|
    ensures RowsReadable(rows[..i]) && RowsReadable(rows[..i + 1])
    ensures Build(g, rows[..i + 1]) == AddLine(Build(g, rows[..i]), rows[i])
  {
    assert rows[..i + 1][..i] == rows[..i];
  }

  /** A whole file read into `g`: the first line is a header and is skipped. */
  function LoadInto(g: GraphVal, lines: seq<string>): GraphVal
    requires Closed(g) && (lines == [] || RowsReadable(lines[1..]))
  {
    if lines == [] then g else Build(g, lines[1..])
  }

  /** A whole file read into an empty graph. */
  function Load(lines: seq<string>): GraphVal
    requires lines == [] || RowsReadable(lines[1..])
  {
    LoadInto(EmptyGraph, lines)
  }

  // ---------------------------------------------------------------------
  // Counting helpers

  function Count(s: seq<string>, x: string): nat
    decreases |s|
  {
    if s == [] then 0 else Count(s[..|s| - 1], x) + (if s[|s| - 1] == x then 1 else 0)
  }

  function Repeat(l: Link, n: nat): seq<Link>
    decreases n
  {
    if n == 0 then [] else Repeat(l, n - 1) + [l]
  }

  /** The edges `actor -> c` for the members `c` of `cast`, in cast order. */
  function LinksTo(actor: string, cast: seq<string>, m: Movie): (r: seq<Link>)
    ensures |r| == |cast|
    ensures forall i :: 0 <= i < |cast| ==> r[i] == Link(actor, cast[i], m)
  {
    seq(|cast|, i requires 0 <= i < |cast| => Link(actor, cast[i], m))
  }

  /** How many of the edges `ls` lead to `y` for movie `m`. */
  function Mult(ls: seq<Link>, y: string, m: Movie): nat
    decreases |ls|
  {
    if ls == [] then 0
    else Mult(ls[..|ls| - 1], y, m) + (if ls[|ls| - 1].dest == y && ls[|ls| - 1].movie == m then 1 else 0)
  }

  /** Every edge has a mirror: as many `x -> y` edges for `m` as `y -> x` edges for `m`. */
  ghost predicate Symmetric(adj: map<string, seq<Link>>) {
    forall x, y, m :: x in adj && y in adj ==> Mult(adj[x], y, m) == Mult(adj[y], x, m)
  }

  /** Every edge is stored under its source and leads to a known actor. */
  ghost predicate EdgesWellFormed(adj: map<string, seq<Link>>) {
    forall x, i :: x in adj && 0 <= i < |adj[x]| ==> adj[x][i].src == x && adj[x][i].dest in adj
  }

  /** Every two members of a cast are linked both ways by an edge for that movie. */
  ghost predicate CastsLinked(g: GraphVal)
    requires Closed(g)
  {
    forall m, i, j :: m in g.casts && 0 <= i < j < |g.casts[m]| ==>
      Link(g.casts[m][j], g.casts[m][i], m) in g.adj[g.casts[m][j]] &&
      Link(g.casts[m][i], g.casts[m][j], m) in g.adj[g.casts[m][i]]
  }

  // ---------------------------------------------------------------------
  // Lemmas about one record

  /** A malformed row (not exactly three fields) leaves the graph as it was. */
  lemma MalformedRowIgnored(g: GraphVal, line: string)
    requires Closed(g) && |Fields(line)| != 3
    ensures AddLine(g, line) == g
  {
  }

  /** The header line never matters, whatever it holds. */
  lemma HeaderIgnored(g: GraphVal, h1: string, h2: string, rows: seq<string>)
    requires Closed(g) && RowsReadable(rows)
    ensures LoadInto(g, [h1] + rows) == LoadInto(g, [h2] + rows) == Build(g, rows)
  {
    assert ([h1] + rows)[1..] == rows;
    assert ([h2] + rows)[1..] == rows;
  }

  /** Adding edge pairs only appends: every earlier edge list is a prefix of the new one. */
  lemma {:induction false} ConnectExtends(adj: map<string, seq<Link>>, actor: string, cast: seq<string>, m: Movie)
    requires actor in adj && forall i :: 0 <= i < |cast| ==> cast[i] in adj
    ensures forall k :: k in adj ==> adj[k] <= Connect(adj, actor, cast, m)[k]
    decreases |cast|
  {
    if cast != [] {
      ConnectExtends(adj, actor, cast[..|cast| - 1], m);
    }
  }

  /**
   * The number of edges added to each list: one per occurrence in the cast,
   * and to the new actor's list one per cast member, so 2 * |cast| in all.
   */
  lemma {:induction false} ConnectCounts(adj: map<string, seq<Link>>, actor: string, cast: seq<string>, m: Movie, k: string)
    requires actor in adj && k in adj && forall i :: 0 <= i < |cast| ==> cast[i] in adj
    ensures |Connect(adj, actor, cast, m)[k]| == |adj[k]| + Count(cast, k) + (if k == actor then |cast| else 0)
    decreases |cast|
  {
    if cast != [] {
      ConnectCounts(adj, actor, cast[..|cast| - 1], m, k);
    }
  }

  /**
   * The edges the actor's own list gains from `cast`: `actor -> c` for each
   * member `c` in cast order, followed by a second `actor -> actor` where
   * `c` is the actor itself (the pair's back edge lands on the same list).
   */
  function OwnLinks(actor: string, cast: seq<string>, m: Movie): seq<Link>
    decreases |cast|
  {
    if cast == [] then []
    else
      var c := cast[|cast| - 1];
      OwnLinks(actor, cast[..|cast| - 1], m) + [Link(actor, c, m)] + (if c == actor then [Link(actor, actor, m)] else [])
  }

  /** Without the actor in the cast, its own list gains exactly `actor -> c` per member. */
  lemma {:induction false} OwnLinksOfOthers(actor: string, cast: seq<string>, m: Movie)
    requires forall i :: 0 <= i < |cast| ==> cast[i] != actor
    ensures OwnLinks(actor, cast, m) == LinksTo(actor, cast, m)
    decreases |cast|
  {
    if cast != [] {
      var init := cast[..|cast| - 1];
      OwnLinksOfOthers(actor, init, m);
      assert LinksTo(actor, cast, m) == LinksTo(actor, init, m) + [Link(actor, cast[|cast| - 1], m)];
    }
  }

  /** The actor's own list gains exactly `OwnLinks` of the cast, whatever the cast holds. */
  lemma {:induction false} ConnectActorContents(adj: map<string, seq<Link>>, actor: string, cast: seq<string>, m: Movie)
    requires actor in adj && forall i :: 0 <= i < |cast| ==> cast[i] in adj
    ensures Connect(adj, actor, cast, m)[actor] == adj[actor] + OwnLinks(actor, cast, m)
    decreases |cast|
  {
    if cast != [] {
      var init := cast[..|cast| - 1];
      ConnectActorContents(adj, actor, init, m);
    }
  }

  /** Every other actor `k` gains one `k -> actor` per occurrence of `k` in the cast. */
  lemma {:induction false} ConnectCoStarContents(adj: map<string, seq<Link>>, actor: string, cast: seq<string>, m: Movie, k: string)
    requires actor in adj && forall i :: 0 <= i < |cast| ==> cast[i] in adj
    requires k in adj && k != actor
    ensures Connect(adj, actor, cast, m)[k] == adj[k] + Repeat(Link(k, actor, m), Count(cast, k))
    decreases |cast|
  {
    if cast != [] {
      var init := cast[..|cast| - 1];
      var c := cast[|cast| - 1];
      ConnectCoStarContents(adj, actor, init, m, k);
      assert Count(cast, k) == Count(init, k) + (if c == k then 1 else 0);
      if c == k {
        assert Repeat(Link(k, actor, m), Count(cast, k)) == Repeat(Link(k, actor, m), Count(init, k)) + [Link(k, actor, m)];
      }
    }
  }

  /** After the pairs are added, the actor and every cast member are linked both ways. */
  lemma {:induction false} ConnectLinksAll(adj: map<string, seq<Link>>, actor: string, cast: seq<string>, m: Movie)
    requires actor in adj && forall i :: 0 <= i < |cast| ==> cast[i] in adj
    ensures forall i :: 0 <= i < |cast| ==>
              Link(actor, cast[i], m) in Connect(adj, actor, cast, m)[actor] &&
              Link(cast[i], actor, m) in Connect(adj, actor, cast, m)[cast[i]]
    decreases |cast|
  {
    if cast != [] {
      var init := cast[..|cast| - 1];
      var c := cast[|cast| - 1];
      ConnectLinksAll(adj, actor, init, m);
      var before := Connect(adj, actor, init, m);
      ConnectExtends(before, actor, [c], m);
      assert [c][..0] == [];
      assert Connect(before, actor, [c], m) == Connect(adj, actor, cast, m);
      forall i | 0 <= i < |init|
        ensures Link(actor, cast[i], m) in Connect(adj, actor, cast, m)[actor]
        ensures Link(cast[i], actor, m) in Connect(adj, actor, cast, m)[cast[i]]
      {
        assert cast[i] == init[i];
        PrefixMember(before[actor], Connect(adj, actor, cast, m)[actor], Link(actor, cast[i], m));
        PrefixMember(before[cast[i]], Connect(adj, actor, cast, m)[cast[i]], Link(cast[i], actor, m));
      }
    }
  }

  lemma PrefixMember<T>(a: seq<T>, b: seq<T>, x: T)
    requires a <= b && x in a
    ensures x in b
  {
    var i :| 0 <= i < |a| && a[i] == x;
    assert b[i] == x;
  }

  /** An existing node keeps its edges; a new one starts empty; nothing else is added or lost. */
  lemma AddRecordExtends(g: GraphVal, actor: string, m: Movie)
    requires Closed(g)
    ensures AddRecord(g, actor, m).adj.Keys == g.adj.Keys + {actor}
    ensures forall k :: k in g.adj ==> g.adj[k] <= AddRecord(g, actor, m).adj[k]
    ensures actor !in g.adj && m !in g.casts ==> AddRecord(g, actor, m).adj[actor] == []
    ensures AddRecord(g, actor, m).casts.Keys == g.casts.Keys + {m}
    ensures forall n :: n in g.casts ==> g.casts[n] <= AddRecord(g, actor, m).casts[n]
    ensures AddRecord(g, actor, m).casts[m] == (if m in g.casts then g.casts[m] else []) + [actor]
  {
    if m in g.casts {
      ConnectExtends(WithActor(g.adj, actor), actor, g.casts[m], m);
    }
  }

  /** The first record of a movie adds no edge at all. */
  lemma FirstRecordAddsNoEdge(g: GraphVal, actor: string, m: Movie)
    requires Closed(g) && m !in g.casts
    ensures AddRecord(g, actor, m).adj == WithActor(g.adj, actor)
  {
  }

  /**
   * A record for a known movie: the actor gains `OwnLinks` of the cast (so
   * exactly `actor -> c` in cast order when the cast lacks the actor), and
   * every other actor `k` gains one `k -> actor` per occurrence in the cast.
   */
  lemma KnownMovieRecord(g: GraphVal, actor: string, m: Movie)
    requires Closed(g) && m in g.casts
    ensures AddRecord(g, actor, m).adj[actor] == WithActor(g.adj, actor)[actor] + OwnLinks(actor, g.casts[m], m)
    ensures (forall i :: 0 <= i < |g.casts[m]| ==> g.casts[m][i] != actor) ==>
              AddRecord(g, actor, m).adj[actor] == WithActor(g.adj, actor)[actor] + LinksTo(actor, g.casts[m], m)
    ensures forall k :: k in g.adj && k != actor ==>
              AddRecord(g, actor, m).adj[k] == g.adj[k] + Repeat(Link(k, actor, m), Count(g.casts[m], k))
  {
    ConnectActorContents(WithActor(g.adj, actor), actor, g.casts[m], m);
    if forall i :: 0 <= i < |g.casts[m]| ==> g.casts[m][i] != actor {
      OwnLinksOfOthers(actor, g.casts[m], m);
    }
    forall k | k in g.adj && k != actor
      ensures AddRecord(g, actor, m).adj[k] == g.adj[k] + Repeat(Link(k, actor, m), Count(g.casts[m], k))
    {
      ConnectCoStarContents(WithActor(g.adj, actor), actor, g.casts[m], m, k);
    }
  }

  /** In any record, the edge lists grow by 2 * |cast| edges in total (counted per list). */
  lemma RecordEdgeCounts(g: GraphVal, actor: string, m: Movie, k: string)
    requires Closed(g) && k in g.adj + map[actor := []]
    ensures var cast := if m in g.casts then g.casts[m] else [];
            |AddRecord(g, actor, m).adj[k]| ==
              |WithActor(g.adj, actor)[k]| + Count(cast, k) + (if k == actor then |cast| else 0)
  {
    if m in g.casts {
      ConnectCounts(WithActor(g.adj, actor), actor, g.casts[m], m, k);
    }
  }

  // ---------------------------------------------------------------------
  // Invariants of the whole load

  lemma MultAppend(ls: seq<Link>, l: Link, y: string, m: Movie)
    ensures Mult(ls + [l], y, m) == Mult(ls, y, m) + (if l.dest == y && l.movie == m then 1 else 0)
  {
    assert (ls + [l])[..|ls|] == ls;
  }

  /** One edge pair adds one `actor -> c` and one `c -> actor` to the counts. */
  lemma AddPairMult(adj: map<string, seq<Link>>, actor: string, c: string, m: Movie, x: string, y: string, n: Movie)
    requires actor in adj && c in adj && x in adj
    ensures Mult(AddPair(adj, actor, c, m)[x], y, n) ==
              Mult(adj[x], y, n)
              + (if x == actor && y == c && n == m then 1 else 0)
              + (if x == c && y == actor && n == m then 1 else 0)
  {
    var l1, l2 := Link(actor, c, m), Link(c, actor, m);
    var adj1 := adj[actor := adj[actor] + [l1]];
    if x == actor && x == c {
      MultAppend(adj[actor], l1, y, n);
      MultAppend(adj1[c], l2, y, n);
    } else if x == actor {
      MultAppend(adj[actor], l1, y, n);
    } else if x == c {
      MultAppend(adj[c], l2, y, n);
    }
  }

  lemma AddPairSymmetric(adj: map<string, seq<Link>>, actor: string, c: string, m: Movie)
    requires actor in adj && c in adj && Symmetric(adj)
    ensures Symmetric(AddPair(adj, actor, c, m))
  {
    var r := AddPair(adj, actor, c, m);
    forall x, y, n | x in r && y in r
      ensures Mult(r[x], y, n) == Mult(r[y], x, n)
    {
      AddPairMult(adj, actor, c, m, x, y, n);
      AddPairMult(adj, actor, c, m, y, x, n);
    }
  }

  lemma {:induction false} ConnectSymmetric(adj: map<string, seq<Link>>, actor: string, cast: seq<string>, m: Movie)
    requires actor in adj && forall i :: 0 <= i < |cast| ==> cast[i] in adj
    requires Symmetric(adj)
    ensures Symmetric(Connect(adj, actor, cast, m))
    decreases |cast|
  {
    if cast != [] {
      ConnectSymmetric(adj, actor, cast[..|cast| - 1], m);
      AddPairSymmetric(Connect(adj, actor, cast[..|cast| - 1], m), actor, cast[|cast| - 1], m);
    }
  }

  /** A list without an edge to `y` counts no edge to `y`. */
  lemma {:induction false} MultAbsent(ls: seq<Link>, y: string, m: Movie)
    requires forall i :: 0 <= i < |ls| ==> ls[i].dest != y
    ensures Mult(ls, y, m) == 0
    decreases |ls|
  {
    if ls != [] {
      MultAbsent(ls[..|ls| - 1], y, m);
    }
  }

  lemma AddPairWellFormed(adj: map<string, seq<Link>>, actor: string, c: string, m: Movie)
    requires actor in adj && c in adj && EdgesWellFormed(adj)
    ensures EdgesWellFormed(AddPair(adj, actor, c, m))
  {
  }

  lemma {:induction false} ConnectWellFormed(adj: map<string, seq<Link>>, actor: string, cast: seq<string>, m: Movie)
    requires actor in adj && forall i :: 0 <= i < |cast| ==> cast[i] in adj
    requires EdgesWellFormed(adj)
    ensures EdgesWellFormed(Connect(adj, actor, cast, m))
    decreases |cast|
  {
    if cast != [] {
      ConnectWellFormed(adj, actor, cast[..|cast| - 1], m);
      AddPairWellFormed(Connect(adj, actor, cast[..|cast| - 1], m), actor, cast[|cast| - 1], m);
    }
  }

  /** A new actor's empty list keeps both invariants: nobody had an edge to it yet. */
  lemma WithActorInvariants(adj: map<string, seq<Link>>, actor: string)
    requires EdgesWellFormed(adj) && Symmetric(adj)
    ensures EdgesWellFormed(WithActor(adj, actor)) && Symmetric(WithActor(adj, actor))
  {
    if actor !in adj {
      var adj1 := WithActor(adj, actor);
      forall x, y, n | x in adj1 && y in adj1
        ensures Mult(adj1[x], y, n) == Mult(adj1[y], x, n)
      {
        if x == actor && y != actor {
          MultAbsent(adj[y], actor, n);
        } else if y == actor && x != actor {
          MultAbsent(adj[x], actor, n);
        }
      }
    }
  }

  /** Every record keeps the edge lists mirrored and well formed. */
  lemma AddRecordInvariants(g: GraphVal, actor: string, m: Movie)
    requires Closed(g) && EdgesWellFormed(g.adj) && Symmetric(g.adj)
    ensures EdgesWellFormed(AddRecord(g, actor, m).adj) && Symmetric(AddRecord(g, actor, m).adj)
  {
    WithActorInvariants(g.adj, actor);
    if m in g.casts {
      ConnectWellFormed(WithActor(g.adj, actor), actor, g.casts[m], m);
      ConnectSymmetric(WithActor(g.adj, actor), actor, g.casts[m], m);
    }
  }

  /** Every record keeps every two members of every cast linked both ways. */
  lemma AddRecordCastsLinked(g: GraphVal, actor: string, m: Movie)
    requires Closed(g) && CastsLinked(g)
    ensures CastsLinked(AddRecord(g, actor, m))
  {
    var r := AddRecord(g, actor, m);
    AddRecordExtends(g, actor, m);
    if m in g.casts {
      ConnectLinksAll(WithActor(g.adj, actor), actor, g.casts[m], m);
    }
    forall n, i, j | n in r.casts && 0 <= i < j < |r.casts[n]|
      ensures Link(r.casts[n][j], r.casts[n][i], n) in r.adj[r.casts[n][j]]
      ensures Link(r.casts[n][i], r.casts[n][j], n) in r.adj[r.casts[n][i]]
    {
      if n == m && m in g.casts && j == |g.casts[m]| {
        assert r.casts[n][j] == actor && r.casts[n][i] == g.casts[m][i];
      } else if n in g.casts {
        assert r.casts[n][i] == g.casts[n][i] && r.casts[n][j] == g.casts[n][j];
        PrefixMember(g.adj[g.casts[n][j]], r.adj[g.casts[n][j]], Link(g.casts[n][j], g.casts[n][i], n));
        PrefixMember(g.adj[g.casts[n][i]], r.adj[g.casts[n][i]], Link(g.casts[n][i], g.casts[n][j], n));
      } else {
        assert false;
      }
    }
  }

  /** All the invariants together, which every loaded graph satisfies. */
  ghost predicate Coherent(g: GraphVal) {
    Closed(g) && EdgesWellFormed(g.adj) && Symmetric(g.adj) && CastsLinked(g)
  }

  lemma {:induction false} BuildCoherent(g: GraphVal, rows: seq<string>)
    requires Coherent(g) && RowsReadable(rows)
    ensures Coherent(Build(g, rows))
    decreases |rows|
  {
    if rows != [] {
      var init := rows[..|rows| - 1];
      BuildCoherent(g, init);
      var f := Fields(rows[|rows| - 1]);
      if |f| == 3 {
        AddRecordInvariants(Build(g, init), f[0], Movie(f[1], DigitsValue(f[2])));
        AddRecordCastsLinked(Build(g, init), f[0], Movie(f[1], DigitsValue(f[2])));
      }
    }
  }

  /**
   * A loaded graph is undirected in the sense of edge multiplicity (each
   * `x -> y` edge for a movie is matched by a `y -> x` edge for it), every
   * edge leads to a known actor, and every two actors in one movie's cast
   * are linked both ways by an edge for that movie.
   */
  lemma LoadCoherent(lines: seq<string>)
    requires lines == [] || RowsReadable(lines[1..])
    ensures Symmetric(Load(lines).adj) && EdgesWellFormed(Load(lines).adj)
    ensures CastsLinked(Load(lines))
  {
    if lines != [] {
      BuildCoherent(EmptyGraph, lines[1..]);
    }
  }

  /** Later lines never remove an actor from a cast. */
  lemma {:induction false} BuildKeepsCasts(g: GraphVal, rows: seq<string>)
    requires Closed(g) && RowsReadable(rows)
    ensures forall n :: n in g.casts ==> n in Build(g, rows).casts && g.casts[n] <= Build(g, rows).casts[n]
    decreases |rows|
  {
    if rows != [] {
      var init := rows[..|rows| - 1];
      BuildKeepsCasts(g, init);
      var f := Fields(rows[|rows| - 1]);
      if |f| == 3 {
        AddRecordExtends(Build(g, init), f[0], Movie(f[1], DigitsValue(f[2])));
        forall n | n in g.casts
          ensures g.casts[n] <= Build(g, rows).casts[n]
        {
          var mid := Build(g, init).casts[n];
          assert g.casts[n] <= mid <= Build(g, rows).casts[n];
        }
      }
    }
  }

  /** The actor of every well-formed data row is in the cast of that row's movie. */
  lemma {:induction false} RowActorInCast(g: GraphVal, rows: seq<string>, i: int)
    requires Closed(g) && RowsReadable(rows)
    requires 0 <= i < |rows| && |Fields(rows[i])| == 3
    ensures var f := Fields(rows[i]);
            var mv := Movie(f[1], DigitsValue(f[2]));
            mv in Build(g, rows).casts && f[0] in Build(g, rows).casts[mv]
    decreases |rows|
  {
    var init := rows[..|rows| - 1];
    var f := Fields(rows[i]);
    var mv := Movie(f[1], DigitsValue(f[2]));
    if i == |rows| - 1 {
      AddRecordExtends(Build(g, init), f[0], mv);
      var c := Build(g, rows).casts[mv];
      assert c[|c| - 1] == f[0];
    } else {
      assert init[i] == rows[i];
      RowActorInCast(g, init, i);
      BuildKeepsCasts(Build(g, init), [rows[|rows| - 1]]);
      assert [rows[|rows| - 1]][..0] == [];
      assert Build(Build(g, init), [rows[|rows| - 1]]) == Build(g, rows);
      PrefixMember(Build(g, init).casts[mv], Build(g, rows).casts[mv], f[0]);
    }
  }

  /** Line `i` (after the header) of a loaded file puts its actor in its movie's cast and the graph. */
  lemma LoadedRowActorInCast(lines: seq<string>, i: int)
    requires lines == [] || RowsReadable(lines[1..])
    requires 1 <= i < |lines| && |Fields(lines[i])| == 3
    ensures var f := Fields(lines[i]);
            var mv := Movie(f[1], DigitsValue(f[2]));
            mv in Load(lines).casts && f[0] in Load(lines).casts[mv] && f[0] in Load(lines).adj
  {
    assert lines[1..][i - 1] == lines[i];
    RowActorInCast(EmptyGraph, lines[1..], i - 1);
  }
}
