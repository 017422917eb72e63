/** `Individual.reproduce`: cloning without a partner, edge-recombination crossover with one. */
module Reproduction {
  import opened Tours
  import opened Individuals
  import opened Mutation
  import opened Crossover

  datatype Option<T> = None | Some(value: T)

  /**
   * The child of `self`, alone or with `partner`. The cut draws are consumed only by the
   * clone; the crossover takes no random draw except its tie-breaks and `set.pop`.
   */
  method Reproduce(m: Matrix, self: Individual, partner: Option<Individual>, d: CutDraw)
    returns (child: Individual)
    requires WellFormed(m, self)
    requires partner.Some? ==> WellFormed(m, partner.value)
    requires partner.None? ==> FitsCuts(|m|, d)
    ensures partner.None? ==> child.gene == Mutate(self.gene, CutPoints(|m|, d))
    ensures partner.Some? ==> IsErxChild(self.gene, partner.value.gene, child.gene)
    ensures WellFormed(m, child)
  {
    if partner.None? {
      child := ReproduceClone(m, self, d);
    } else {
      child := ReproduceSexual(m, self, partner.value);
    }
  }
}
