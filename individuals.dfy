/** Candidate tours: a genome with the cost computed once when the individual is built. */
module Individuals {
  import opened Tours
  import opened Shuffling

  datatype Result<T, E> = Success(value: T) | Failure(error: E)

  /** The exception `Individual.__init__` raises for a genome of the wrong length. */
  datatype GenomeError = WrongLength(expected: nat, actual: nat)

  /** An individual never changes after construction; a child is a new individual. */
  datatype Individual = Individual(gene: seq<int>, cost: real)

  /** The genome is a permutation of the cities and the cached cost is its tour cost. */
  predicate WellFormed(m: Matrix, x: Individual)
  {
    IsMatrix(m) && IsPermutation(x.gene, |m|) && x.cost == TourCost(m, x.gene)
  }

  /**
   * `Individual(gene)`: a genome of the wrong length is rejected; any other genome is kept
   * as it is (only its length is checked) and evaluated at once.
   */
  method NewIndividual(m: Matrix, gene: seq<int>) returns (r: Result<Individual, GenomeError>)
    requires IsMatrix(m)
    requires |gene| == |m| ==> InRange(gene, |m|)
    ensures r.Failure? <==> |gene| != |m|
    ensures r.Failure? ==> r.error == WrongLength(|m|, |gene|)
    ensures r.Success? ==> r.value.gene == gene && r.value.cost == TourCost(m, gene)
  {
    if |gene| != |m| {
      return Failure(WrongLength(|m|, |gene|));
    }
    var cost := Evaluate(m, gene);
    r := Success(Individual(gene, cost));
  }

  /** `Individual.create`: the list `0 .. n-1`, shuffled with the given draws. */
  function Create(n: nat, draws: seq<nat>): (g: seq<int>)
    requires FitsShuffle(draws, n)
    ensures |g| == n && InRange(g, n)
  {
    var g := Shuffled(Range(n), draws);
    assert forall i | 0 <= i < n :: g[i] in multiset(Range(n));
    g
  }

  /** Whatever the draws, `create` returns an arrangement of `0 .. n-1`: a permutation. */
  lemma CreateIsPermutation(n: nat, draws: seq<nat>)
    requires FitsShuffle(draws, n)
    ensures IsPermutation(Create(n, draws), n)
    ensures multiset(Create(n, draws)) == multiset(Range(n))
  {
    ShuffledKeepsDistinct(Range(n), draws);
  }

  /** `Individual()` without a genome: a random permutation, evaluated at once. */
  method RandomIndividual(m: Matrix, draws: seq<nat>) returns (x: Individual)
    requires IsMatrix(m) && FitsShuffle(draws, |m|)
    ensures x.gene == Create(|m|, draws)
    ensures WellFormed(m, x)
  {
    var gene := Create(|m|, draws);
    CreateIsPermutation(|m|, draws);
    var cost := Evaluate(m, gene);
    x := Individual(gene, cost);
  }
}
