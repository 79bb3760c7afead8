/** The standing of one search result and the order the ranker compares standings in.

    A result's rating is a whole number of stars when it has been voted on, and the
    average 2.5 when it has not, so ratings are kept as reals: the comparison is exact
    and no floating-point rounding is involved.
 */
module Scores {

  /** A rating together with the number of votes behind it. */
  datatype Score = Score(rating: real, votes: int)

  /** The best-so-far standing before any result has been seen: rating 0, no votes. */
  const Baseline: Score := Score(0.0, 0)

  /** The standing given to a result nobody has voted on: an average rating of 2.5
      and no votes. */
  const UnratedScore: Score := Score(2.5, 0)

  /** Lexicographic strict comparison: a higher rating wins; on an equal rating, more
      votes win; a complete tie does not win. */
  predicate Beats(a: Score, b: Score) {
    a.rating > b.rating || (a.rating == b.rating && a.votes > b.votes)
  }

  /** `Beats` is a strict total order on standings: irreflexive, asymmetric,
      transitive, and any two different standings are comparable. */
  lemma BeatsIsStrictTotalOrder(a: Score, b: Score, c: Score)
    ensures !Beats(a, a)
    ensures Beats(a, b) ==> !Beats(b, a)
    ensures Beats(a, b) && Beats(b, c) ==> Beats(a, c)
    ensures a == b || Beats(a, b) || Beats(b, a)
  {
  }
}
