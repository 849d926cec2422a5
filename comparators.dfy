/**
 * The two priority-queue comparators of src/ActorGraph/Edge.hpp. Each answers
 * "does `lhs` rank below `rhs`?", so a `std::priority_queue` (a max-heap)
 * using it serves the entry that no other entry ranks above.
 */
module Comparators {
  import opened Lex
  import opened ActorNodes

  /**
   * `NodePairComp` on (node, path weight) pairs: a heavier pair ranks lower;
   * on equal weights the pair whose actor name sorts later ranks lower.
   */
  predicate NodePairComp(lhs: (Node, int), rhs: (Node, int)) {
    if rhs.1 != lhs.1 then lhs.1 > rhs.1
    else LexLess(rhs.0.name, lhs.0.name)
  }

  /**
   * `lhs` ranks below `rhs` exactly when it is heavier, or equally heavy with
   * a later name: the heap serves the lowest weight first, then the lowest name.
   */
  lemma NodePairCompMeaning(lhs: (Node, int), rhs: (Node, int))
    ensures NodePairComp(lhs, rhs) <==>
              lhs.1 > rhs.1 || (lhs.1 == rhs.1 && LexLess(rhs.0.name, lhs.0.name))
  {
  }

  /** Irreflexive, asymmetric and transitive. */
  lemma NodePairCompStrictOrder(a: (Node, int), b: (Node, int), c: (Node, int))
    ensures !NodePairComp(a, a)
    ensures NodePairComp(a, b) ==> !NodePairComp(b, a)
    ensures NodePairComp(a, b) && NodePairComp(b, c) ==> NodePairComp(a, c)
  {
    LexIrreflexive(a.0.name);
    LexAsymmetric(a.0.name, b.0.name);
    LexAsymmetric(b.0.name, a.0.name);
    if NodePairComp(a, b) && NodePairComp(b, c) && a.1 == b.1 == c.1 {
      LexTransitive(c.0.name, b.0.name, a.0.name);
    }
  }

  /** Pairs that differ in weight or in name are always ordered: the order is total. */
  lemma NodePairCompTotal(a: (Node, int), b: (Node, int))
    requires a.1 != b.1 || a.0.name != b.0.name
    ensures NodePairComp(a, b) || NodePairComp(b, a)
  {
    if a.1 == b.1 {
      LexTotal(a.0.name, b.0.name);
    }
  }

  /**
   * `EdgeComp` as written: its guard compares `rhs`'s weight with itself, so
   * both branches return the same weight comparison.
   */
  predicate EdgeComp(lhs: Edge, rhs: Edge)
    reads lhs`weight, rhs`weight
  {
    EdgeCompOnWeights(lhs.weight, rhs.weight)
  }

  /** The comparator's body over the two weights it reads (`lw` of `lhs`, `rw` of `rhs`). */
  predicate EdgeCompOnWeights(lw: int, rw: int) {
    if rw != rw then lw > rw else lw > rw
  }

  /** The guard never fires: `EdgeComp` is the plain weight comparison. */
  lemma EdgeCompIsWeightOnly(lhs: Edge, rhs: Edge)
    ensures EdgeComp(lhs, rhs) <==> lhs.weight > rhs.weight
  {
  }

  /** Irreflexive and asymmetric. */
  lemma EdgeCompStrict(lhs: Edge, rhs: Edge)
    ensures !EdgeComp(lhs, lhs)
    ensures EdgeComp(lhs, rhs) ==> !EdgeComp(rhs, lhs)
  {
  }

  /** No tie-break: edges of equal weight are unordered whatever their movies or ends. */
  lemma EdgeCompNoTieBreak(lhs: Edge, rhs: Edge)
    requires lhs.weight == rhs.weight
    ensures !EdgeComp(lhs, rhs) && !EdgeComp(rhs, lhs)
  {
  }
}
