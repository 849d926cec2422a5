/**
 * The Movie key of src/ActorGraph/Movie.hpp: a title and a year, with an
 * equality that looks at both and an ordering that looks at the title only.
 */
module Movies {
  import opened Lex

  datatype Movie = Movie(name: string, year: int)

  /** `Movie::operator==`: title and year both agree. */
  predicate Equals(m: Movie, other: Movie) {
    m.name == other.name && m.year == other.year
  }

  /** `Movie::operator<`: the titles alone are compared. */
  predicate Less(m: Movie, other: Movie) {
    LexLess(m.name, other.name)
  }

  /** `==` is exactly structural equality of the (title, year) record. */
  lemma EqualsIsIdentity(m: Movie, other: Movie)
    ensures Equals(m, other) <==> m == other
  {
  }

  /** `==` is reflexive, symmetric and transitive. */
  lemma EqualsIsEquivalence(a: Movie, b: Movie, c: Movie)
    ensures Equals(a, a)
    ensures Equals(a, b) ==> Equals(b, a)
    ensures Equals(a, b) && Equals(b, c) ==> Equals(a, c)
  {
  }

  /** `<` is irreflexive and transitive (a strict weak order on titles). */
  lemma LessIsStrictOrder(a: Movie, b: Movie, c: Movie)
    ensures !Less(a, a)
    ensures Less(a, b) ==> !Less(b, a)
    ensures Less(a, b) && Less(b, c) ==> Less(a, c)
  {
    LexIrreflexive(a.name);
    LexAsymmetric(a.name, b.name);
    if Less(a, b) && Less(b, c) {
      LexTransitive(a.name, b.name, c.name);
    }
  }

  /** Movies that are `==` are unordered by `<` in both directions. */
  lemma EqualMoviesUnordered(a: Movie, b: Movie)
    requires Equals(a, b)
    ensures !Less(a, b) && !Less(b, a)
  {
    LexIrreflexive(a.name);
  }

  /**
   * A title re-used in another year gives two movies that are neither `==`
   * nor ordered by `<`: an ordered container would take them for one key
   * while `==` keeps them apart.
   */
  lemma SameTitleOtherYearInconsistent(a: Movie, b: Movie)
    requires a.name == b.name && a.year != b.year
    ensures !Equals(a, b) && !Less(a, b) && !Less(b, a)
  {
    LexIrreflexive(a.name);
  }
}
