/**
 * The actor graph's two kinds of object, from src/ActorGraph/Edge.hpp,
 * src/ActorGraph/Edge.cpp and src/ActorGraph/Node.cpp.
 *
 * An Edge is one direction of a collaboration: it points from the actor that
 * owns it to a co-star, names the shared movie, and carries a weight and a
 * "checked" mark that searches set and reset. A Node is an actor: its name,
 * its outgoing edges in insertion order, and per-search scratch state (done
 * flag, back-pointer `prev`, best path weight, and the `sentinel`/`base`
 * references meant for a spanning-tree search).
 *
 * The endpoints and movie of an Edge and the name of a Node are never
 * reassigned after construction (the C++ has no setter for them), so they are
 * `const` here; everything a search touches is a `var`.
 */
module ActorNodes {
  import opened Movies

  /** `MAX_WEIGHT`: the largest 32-bit signed integer, the "not reached" path weight. */
  const MAX_WEIGHT: int := 0x7FFF_FFFF

  /** `WEIGHT_YEAR`: movies of this year get weight 1. */
  const WEIGHT_YEAR: int := 2019

  /** The weight an edge derives from its movie's year (Edge.cpp). */
  function YearWeight(year: int): int {
    1 + (WEIGHT_YEAR - year)
  }

  /** A 2019 movie weighs 1 and every year earlier adds exactly 1. */
  lemma YearWeightSteps(year: int)
    ensures YearWeight(WEIGHT_YEAR) == 1
    ensures YearWeight(year - 1) == YearWeight(year) + 1
    ensures MAX_WEIGHT == 2147483647
  {
  }

  class Edge {
    const src: Node
    const dest: Node
    const movie: Movie
    var checked: bool
    var weight: int

    /** The state the constructor leaves and `unCheck` restores. */
    ghost predicate Pristine()
      reads this`checked, this`weight
    {
      !checked && weight == YearWeight(movie.year)
    }

    constructor (srcActor: Node, destActor: Node, movieName: Movie)
      ensures src == srcActor && dest == destActor && movie == movieName
      ensures !checked && weight == 1 + (2019 - movieName.year)
      ensures Pristine()
    {
      src := srcActor;
      dest := destActor;
      movie := movieName;
      weight := 1 + (WEIGHT_YEAR - movieName.year);
      checked := false;
    }

    /** Sets the weight; the mark is untouched (it is outside the frame). */
    method UpdateWeight(newWeight: int)
      modifies this`weight
      ensures weight == newWeight
    {
      weight := newWeight;
    }

    method GetWeight() returns (w: int)
      ensures w == weight
    {
      w := weight;
    }

    /** `getName` returns the movie record. */
    method GetName() returns (m: Movie)
      ensures m == movie
    {
      m := movie;
    }

    method Check()
      modifies this`checked
      ensures checked
    {
      checked := true;
    }

    method IsChecked() returns (b: bool)
      ensures b == checked
    {
      b := checked;
    }

    /**
     * Clears the mark and re-derives the weight from the year: whatever
     * `Check` and `UpdateWeight` did before, the edge is back in its
     * constructed state (so calling it twice is the same as once).
     */
    method UnCheck()
      modifies this`checked, this`weight
      ensures Pristine()
    {
      checked := false;
      weight := 1 + (WEIGHT_YEAR - movie.year);
    }

    method GetSource() returns (n: Node)
      ensures n == src
    {
      n := src;
    }

    method GetDest() returns (n: Node)
      ensures n == dest
    {
      n := dest;
    }
  }

  class Node {
    const name: string
    var edges: seq<Edge>
    var prev: Edge?
    var pathWeight: int
    var done: bool
    var sentinel: Node?
    var base: Node?

    /** The per-search state of a fresh node, which `uncheck` restores. */
    ghost predicate Reset()
      reads this`prev, this`pathWeight, this`done, this`sentinel, this`base
    {
      prev == null && pathWeight == MAX_WEIGHT && !done && sentinel == null && base == null
    }

    /** `done` starts false by its field initialiser in Edge.hpp, the rest in Node.cpp. */
    constructor (actorName: string)
      ensures name == actorName && edges == []
      ensures Reset()
    {
      name := actorName;
      edges := [];
      prev := null;
      pathWeight := MAX_WEIGHT;
      done := false;
      sentinel := null;
      base := null;
    }

    /** `addEdge(other, movie)`: appends one new edge from this node to `other`. */
    method AddEdgeTo(other: Node, movie: Movie)
      modifies this`edges
      ensures |edges| == |old(edges)| + 1 && edges[..|old(edges)|] == old(edges)
      ensures fresh(edges[|edges| - 1])
      ensures edges[|edges| - 1].src == this && edges[|edges| - 1].dest == other
      ensures edges[|edges| - 1].movie == movie && edges[|edges| - 1].Pristine()
    {
      var edge := new Edge(this, other, movie);
      edges := edges + [edge];
    }

    /** `addEdge(newEdge)`: appends the given edge. */
    method AddEdge(newEdge: Edge)
      modifies this`edges
      ensures edges == old(edges) + [newEdge]
    {
      edges := edges + [newEdge];
    }

    method Check()
      modifies this`done
      ensures done
    {
      done := true;
    }

    /** Back to the fresh-node state; the name and the edge list are outside the frame. */
    method Uncheck()
      modifies this`done, this`prev, this`base, this`sentinel, this`pathWeight
      ensures Reset()
    {
      done := false;
      prev := null;
      base := null;
      sentinel := null;
      pathWeight := MAX_WEIGHT;
    }

    method IsDone() returns (b: bool)
      ensures b == done
    {
      b := done;
    }

    method GetPathWeight() returns (w: int)
      ensures w == pathWeight
    {
      w := pathWeight;
    }

    /** Marks the start of a weighted search; `done`, `sentinel`, `base` stay. */
    method SetStart()
      modifies this`prev, this`pathWeight
      ensures prev == null && pathWeight == 0
    {
      prev := null;
      pathWeight := 0;
    }

    method SetBase(theBase: Node?)
      modifies this`base
      ensures base == theBase
    {
      base := theBase;
    }

    method GetBase() returns (n: Node?)
      ensures n == base
    {
      n := base;
    }

    method SetSentinel(sent: Node?)
      modifies this`sentinel
      ensures sentinel == sent
    {
      sentinel := sent;
    }

    method GetSentinel() returns (n: Node?)
      ensures n == sentinel
    {
      n := sentinel;
    }

    /** `setPrev(e)`: a null edge is ignored, any other becomes the back-pointer. */
    method SetPrev(thePrev: Edge?)
      modifies this`prev
      ensures thePrev == null ==> prev == old(prev)
      ensures thePrev != null ==> prev == thePrev
    {
      if thePrev == null {
        return;
      }
      prev := thePrev;
    }

    /**
     * `setPrev(e, w)`: a null edge is ignored; otherwise the back-pointer is
     * set and the path weight becomes `w` plus the edge's weight.
     */
    method SetPrevWeighted(thePrev: Edge?, weight: int)
      modifies this`prev, this`pathWeight
      ensures thePrev == null ==> prev == old(prev) && pathWeight == old(pathWeight)
      ensures thePrev != null ==> prev == thePrev && pathWeight == weight + thePrev.weight
    {
      if thePrev == null {
        return;
      }
      prev := thePrev;
      pathWeight := weight + thePrev.weight;
    }

    method GetPrev() returns (e: Edge?)
      ensures e == prev
    {
      e := prev;
    }

    method GetName() returns (n: string)
      ensures n == name
    {
      n := name;
    }

    /** A copy of the edge list. */
    method GetEdges() returns (es: seq<Edge>)
      ensures es == edges
    {
      es := edges;
    }

    /**
     * The first edge in list order whose destination is named `actor`, or
     * null when no edge leads to such an actor.
     */
    method FindEdge(actor: string) returns (r: Edge?)
      ensures r == null <==> forall i :: 0 <= i < |edges| ==> edges[i].dest.name != actor
      ensures r != null ==> exists i :: 0 <= i < |edges| && edges[i] == r && r.dest.name == actor &&
                                        forall j :: 0 <= j < i ==> edges[j].dest.name != actor
    {
      var edge := 0;
      while edge < |edges|
        invariant 0 <= edge <= |edges|
        invariant forall j :: 0 <= j < edge ==> edges[j].dest.name != actor
      {
        if edges[edge].dest.name == actor {
          return edges[edge];
        }
        edge := edge + 1;
      }
      return null;
    }
  }
}
