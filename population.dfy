/** The population and the passing of generations: `make_population`, `generation`, `run`. */
module Populations {
  import opened Tours
  import opened Shuffling
  import opened Individuals
  import opened Mutation
  import opened Crossover
  import opened Reproduction
  import opened Ordering

  /** The tuning knobs of the solver; `elite` selects pure truncation selection. */
  datatype Config = Config(survivalRatio: real, reproductionTypeRatio: real, elite: bool)

  predicate ValidConfig(cfg: Config)
  {
    0.0 <= cfg.survivalRatio <= 1.0 && 0.0 <= cfg.reproductionTypeRatio <= 1.0
  }

  /** The slot counts of one generation, and the first slot of the shuffled tail. */
  datatype Slots = Slots(survivors: nat, children: nat, cloned: nat, elites: nat, keep: nat)

  lemma ScaleDown(x: real, r: real)
    requires 0.0 <= x && 0.0 <= r <= 1.0
    ensures 0.0 <= x * r <= x
  {
  }

  /** Python's `int(count * ratio)` for a ratio in [0, 1]: the product rounded down. */
  function Portion(count: nat, ratio: real): (k: nat)
    requires 0.0 <= ratio <= 1.0
    ensures k as real <= count as real * ratio < k as real + 1.0
    ensures k <= count
  {
    ScaleDown(count as real, ratio);
    (count as real * ratio).Floor
  }

  lemma FloorMonotone(x: real, y: real)
    requires x <= y
    ensures x.Floor <= y.Floor
  {
  }

  lemma ScaleMonotone(c: real, r1: real, r2: real)
    requires 0.0 <= c && r1 <= r2
    ensures c * r1 <= c * r2
  {
    assert c * r2 - c * r1 == c * (r2 - r1);
  }

  /** A smaller ratio never gives a larger portion. */
  lemma PortionMonotone(count: nat, r1: real, r2: real)
    requires 0.0 <= r1 <= r2 <= 1.0
    ensures Portion(count, r1) <= Portion(count, r2)
  {
    ScaleMonotone(count as real, r1, r2);
    FloorMonotone(count as real * r1, count as real * r2);
  }

  /**
   * `survivors = int(len * survivalRatio)`, `nr_of_children = len - survivors`,
   * `nr_of_cloned_children = int(nr_of_children * reproductionTypeRatio)`,
   * `elites = int(len * survivalRatio^2)`; the tail shuffled in non-elite mode starts at
   * `elites + 1`, or is empty when that is past the end.
   */
  function SlotCounts(len: nat, cfg: Config): (s: Slots)
    requires ValidConfig(cfg)
    ensures s.survivors + s.children == len
    ensures s.cloned <= s.children
    ensures s.elites <= s.survivors
    ensures 1 <= s.keep <= len || s.keep == len == 0
    ensures s.keep == if s.elites + 1 <= len then s.elites + 1 else len
  {
    var sr := cfg.survivalRatio;
    var survivors := Portion(len, sr);
    var children := len - survivors;
    var cloned := Portion(children, cfg.reproductionTypeRatio);
    ScaleDown(sr, sr);
    var elites := Portion(len, sr * sr);
    PortionMonotone(len, sr * sr, sr);
    var keep := if elites + 1 <= len then elites + 1 else len;
    Slots(survivors, children, cloned, elites, keep)
  }

  /** The random choices one generation consumes, in the order the code draws them. */
  datatype GenerationDraws = GenerationDraws(
    shuffle: seq<nat>,
    cloneParents: seq<nat>,
    cuts: seq<CutDraw>,
    crossParents: seq<(nat, nat)>)

  /**
   * Draws the code can take: a shuffle of the tail (non-elite mode only), then per mutation
   * child a parent below `survivors` and the two cut draws, then per crossover child the
   * index of `self` and of the partner, both below `survivors`.
   */
  predicate DrawsFit(len: nat, n: nat, cfg: Config, d: GenerationDraws)
    requires ValidConfig(cfg)
  {
    var s := SlotCounts(len, cfg);
    (!cfg.elite ==> FitsShuffle(d.shuffle, len - s.keep)) && ClonesFit(n, s, d) && CrossesFit(s, d)
  }

  predicate ClonesFit(n: nat, s: Slots, d: GenerationDraws)
  {
    |d.cloneParents| == s.cloned && |d.cuts| == s.cloned &&
    forall i | 0 <= i < s.cloned :: d.cloneParents[i] < s.survivors && FitsCuts(n, d.cuts[i])
  }

  predicate CrossesFit(s: Slots, d: GenerationDraws)
    requires s.cloned <= s.children
  {
    |d.crossParents| == s.children - s.cloned &&
    forall i | 0 <= i < s.children - s.cloned ::
      d.crossParents[i].0 < s.survivors && d.crossParents[i].1 < s.survivors
  }

  /** A parent index below `survivors` exists only if somebody survives. */
  lemma DrawsMeanSurvivors(len: nat, n: nat, cfg: Config, d: GenerationDraws)
    requires ValidConfig(cfg) && DrawsFit(len, n, cfg, d) && len >= 1
    ensures SlotCounts(len, cfg).survivors >= 1
  {
    var s := SlotCounts(len, cfg);
    if s.children > 0 {
      if s.cloned > 0 {
        assert d.cloneParents[0] < s.survivors;
      } else {
        assert d.crossParents[0].0 < s.survivors;
      }
    }
  }

  /** Replacing the tail from `keep` on by a rearrangement of it rearranges the whole. */
  lemma ReplaceTail(s: seq<Individual>, keep: nat, t: seq<Individual>)
    requires keep <= |s| && multiset(t) == multiset(s[keep..])
    ensures var r := s[..keep] + t;
      |r| == |s| && multiset(r) == multiset(s) && r[..keep] == s[..keep] && r[keep..] == t
  {
    assert s == s[..keep] + s[keep..];
    assert |t| == |multiset(t)|;
    var r := s[..keep] + t;
    assert r[..keep] == s[..keep] && r[keep..] == t;
  }

  /** The sorted population after the optional shuffle of the tail from slot `keep` on. */
  function AfterShuffle(sorted: seq<Individual>, cfg: Config, d: GenerationDraws): (r: seq<Individual>)
    requires ValidConfig(cfg)
    requires !cfg.elite ==> FitsShuffle(d.shuffle, |sorted| - SlotCounts(|sorted|, cfg).keep)
    ensures |r| == |sorted| && multiset(r) == multiset(sorted)
    ensures cfg.elite ==> r == sorted
    ensures var keep := SlotCounts(|sorted|, cfg).keep;
      r[..keep] == sorted[..keep] && multiset(r[keep..]) == multiset(sorted[keep..])
  {
    var keep := SlotCounts(|sorted|, cfg).keep;
    if cfg.elite then sorted
    else
      var t := Shuffled(sorted[keep..], d.shuffle);
      ReplaceTail(sorted, keep, t);
      sorted[..keep] + t
  }

  /** Every individual of the population has a permutation genome and its own tour cost. */
  ghost predicate AllWellFormed(m: Matrix, s: seq<Individual>)
  {
    forall x | x in s :: WellFormed(m, x)
  }

  lemma UpdateWellFormed(m: Matrix, s: seq<Individual>, k: nat, x: Individual)
    requires AllWellFormed(m, s) && k < |s| && WellFormed(m, x)
    ensures AllWellFormed(m, s[k := x])
  {
    forall y | y in s[k := x]
      ensures WellFormed(m, y)
    {
      var j :| 0 <= j < |s| && s[k := x][j] == y;
      if j != k {
        assert s[j] in s;
      }
    }
  }

  lemma AppendWellFormed(m: Matrix, s: seq<Individual>, x: Individual)
    requires AllWellFormed(m, s) && WellFormed(m, x)
    ensures AllWellFormed(m, s + [x])
  {
  }

  /** Appending the next created individual extends the match with the shuffles by one. */
  lemma PushKeepsGenes(m: Matrix, draws: seq<seq<nat>>, s: seq<Individual>, x: Individual)
    requires IsMatrix(m) && forall k | 0 <= k < |draws| :: FitsShuffle(draws[k], |m|)
    requires |s| < |draws| && forall j | 0 <= j < |s| :: s[j].gene == Create(|m|, draws[j])
    requires x.gene == Create(|m|, draws[|s|])
    ensures forall j | 0 <= j < |s| + 1 :: (s + [x])[j].gene == Create(|m|, draws[j])
  {
  }

  lemma RearrangedWellFormed(m: Matrix, s: seq<Individual>, t: seq<Individual>)
    requires AllWellFormed(m, s) && multiset(t) == multiset(s)
    ensures AllWellFormed(m, t)
  {
    forall x | x in t
      ensures WellFormed(m, x)
    {
      assert x in multiset(s);
    }
  }

  /** The best cost survives a generation when slot 0 keeps the cheapest sorted individual. */
  lemma BestSurvives(before: seq<Individual>, after: seq<Individual>)
    requires |before| >= 1 && |after| >= 1 && after[0] == SortByCost(before)[0]
    ensures MinCost(after) <= MinCost(before)
  {
    SortedHeadIsCheapest(before);
  }

  /** `child` is the clone of parent `cloneParents[i]` mutated with the cut draws `cuts[i]`. */
  predicate IsClone(n: nat, parents: seq<Individual>, d: GenerationDraws, i: nat, child: Individual)
  {
    i < |d.cloneParents| && i < |d.cuts| && d.cloneParents[i] < |parents| &&
    FitsCuts(n, d.cuts[i]) && |parents[d.cloneParents[i]].gene| == n &&
    child.gene == Mutate(parents[d.cloneParents[i]].gene, CutPoints(n, d.cuts[i]))
  }

  /** `child` is an edge-recombination child of the drawn pair `crossParents[i]`. */
  ghost predicate IsCross(parents: seq<Individual>, d: GenerationDraws, i: nat, child: Individual)
  {
    i < |d.crossParents| && d.crossParents[i].0 < |parents| && d.crossParents[i].1 < |parents| &&
    var a, b := parents[d.crossParents[i].0].gene, parents[d.crossParents[i].1].gene;
    Parents(a, b) && IsErxChild(a, b, child.gene)
  }

  /** The `i`-th of `kids` is the `i`-th mutation child. */
  predicate ClonesAre(n: nat, parents: seq<Individual>, d: GenerationDraws, kids: seq<Individual>)
  {
    forall i | 0 <= i < |kids| :: IsClone(n, parents, d, i, kids[i])
  }

  /** The `i`-th of `kids` is the `i`-th crossover child. */
  ghost predicate CrossesAre(parents: seq<Individual>, d: GenerationDraws, kids: seq<Individual>)
  {
    forall i | 0 <= i < |kids| :: IsCross(parents, d, i, kids[i])
  }

  lemma ClonesExtend(n: nat, parents: seq<Individual>, d: GenerationDraws, kids: seq<Individual>, x: Individual)
    requires ClonesAre(n, parents, d, kids) && IsClone(n, parents, d, |kids|, x)
    ensures ClonesAre(n, parents, d, kids + [x])
  {
  }

  lemma CrossesExtend(parents: seq<Individual>, d: GenerationDraws, kids: seq<Individual>, x: Individual)
    requires CrossesAre(parents, d, kids) && IsCross(parents, d, |kids|, x)
    ensures CrossesAre(parents, d, kids + [x])
  {
  }

  /** `before` with the slots from `at` on overwritten by `kids`. */
  function Spliced(before: seq<Individual>, at: nat, kids: seq<Individual>): (r: seq<Individual>)
    requires at + |kids| <= |before|
    ensures |r| == |before|
  {
    before[..at] + kids + before[at + |kids|..]
  }

  /** Writing the next child into the slot after the children placed so far. */
  lemma SpliceStep(before: seq<Individual>, at: nat, kids: seq<Individual>, x: Individual)
    requires at + |kids| < |before|
    ensures Spliced(before, at, kids)[at + |kids| := x] == Spliced(before, at, kids + [x])
  {
  }

  /** Writing a well-formed child keeps the whole population well-formed. */
  lemma FillStep(m: Matrix, before: seq<Individual>, at: nat, kids: seq<Individual>, x: Individual)
    requires at + |kids| < |before| && AllWellFormed(m, Spliced(before, at, kids)) && WellFormed(m, x)
    ensures Spliced(before, at, kids)[at + |kids| := x] == Spliced(before, at, kids + [x])
    ensures AllWellFormed(m, Spliced(before, at, kids + [x]))
  {
    SpliceStep(before, at, kids, x);
    UpdateWellFormed(m, Spliced(before, at, kids), at + |kids|, x);
  }

  /** The slots below `at` are not touched by the splice. */
  lemma SplicedKeepsBelow(before: seq<Individual>, at: nat, kids: seq<Individual>, p: nat)
    requires at + |kids| <= |before| && p < at
    ensures Spliced(before, at, kids)[p] == before[p]
  {
  }

  lemma SplicedParts(before: seq<Individual>, at: nat, kids: seq<Individual>)
    requires at + |kids| <= |before|
    ensures var r := Spliced(before, at, kids);
      r[..at] == before[..at] && r[at..at + |kids|] == kids && r[at + |kids|..] == before[at + |kids|..]
  {
  }

  lemma PrefixSlices(a: seq<Individual>, b: seq<Individual>, k: nat, lo: nat)
    requires lo <= k <= |a| && k <= |b| && a[..k] == b[..k]
    ensures a[lo..k] == b[lo..k] && a[..lo] == b[..lo]
  {
    assert a[lo..k] == a[..k][lo..] && b[lo..k] == b[..k][lo..];
    assert a[..lo] == a[..k][..lo] && b[..lo] == b[..k][..lo];
  }

  /** The crossover parents sit below `survivors`, which the clone fill did not touch. */
  lemma CrossParentsStay(parents: seq<Individual>, s: Slots, d: GenerationDraws, mid: seq<Individual>, kids: seq<Individual>)
    requires CrossesAre(mid, d, kids) && s.cloned <= s.children && CrossesFit(s, d)
    requires s.survivors <= |mid| && s.survivors <= |parents| && mid[..s.survivors] == parents[..s.survivors]
    requires |kids| <= s.children - s.cloned
    ensures CrossesAre(parents, d, kids)
  {
    forall i | 0 <= i < |kids|
      ensures IsCross(parents, d, i, kids[i])
    {
      assert IsCross(mid, d, i, kids[i]);
      var p, q := d.crossParents[i].0, d.crossParents[i].1;
      assert mid[p] == mid[..s.survivors][p] == parents[p];
      assert mid[q] == mid[..s.survivors][q] == parents[q];
    }
  }

  /**
   * The population `next` one generation makes of the sorted and (in non-elite mode) shuffled
   * population `shuffled`: the first `survivors` slots are kept, the next `cloned` slots
   * hold the mutation children and the rest the crossover children, all of parents drawn
   * from `shuffled`.
   */
  ghost predicate IsNextGeneration(n: nat, s: Slots, d: GenerationDraws,
                                   shuffled: seq<Individual>, next: seq<Individual>)
  {
    |next| == |shuffled| == s.survivors + s.children && s.cloned <= s.children &&
    next[..s.survivors] == shuffled[..s.survivors] &&
    ClonesAre(n, shuffled, d, next[s.survivors..s.survivors + s.cloned]) &&
    CrossesAre(shuffled, d, next[s.survivors + s.cloned..])
  }

  /**
   * One call of `generation`: `next` is the next generation of `prev` sorted by cost and,
   * in non-elite mode, with its tail shuffled by the draws.
   */
  ghost predicate GenerationStep(n: nat, cfg: Config, d: GenerationDraws,
                                 prev: seq<Individual>, next: seq<Individual>)
  {
    ValidConfig(cfg) &&
    (!cfg.elite ==> FitsShuffle(d.shuffle, |prev| - SlotCounts(|prev|, cfg).keep)) &&
    IsNextGeneration(n, SlotCounts(|prev|, cfg), d, AfterShuffle(SortByCost(prev), cfg, d), next)
  }

  /** The two fill loops together make the next generation out of the shuffled population. */
  lemma AssembleGeneration(n: nat, s: Slots, d: GenerationDraws,
                           shuffled: seq<Individual>, mid: seq<Individual>, next: seq<Individual>)
    requires s.cloned <= s.children && CrossesFit(s, d)
    requires |mid| == |shuffled| == |next| == s.survivors + s.children
    requires mid[..s.survivors] == shuffled[..s.survivors]
    requires ClonesAre(n, shuffled, d, mid[s.survivors..s.survivors + s.cloned])
    requires next[..s.survivors + s.cloned] == mid[..s.survivors + s.cloned]
    requires CrossesAre(mid, d, next[s.survivors + s.cloned..])
    ensures IsNextGeneration(n, s, d, shuffled, next)
  {
    PrefixSlices(next, mid, s.survivors + s.cloned, s.survivors);
    CrossParentsStay(shuffled, s, d, mid, next[s.survivors + s.cloned..]);
  }

  /**
   * Which sorted individuals a generation keeps in place: in elite mode all the survivors;
   * otherwise the first `keep` slots (as far as they are survivors), the rest of the
   * survivors having been drawn from the shuffled tail. Slot 0 is kept in both modes.
   */
  lemma KeptPrefix(s: Slots, elite: bool, sorted: seq<Individual>, shuffled: seq<Individual>, next: seq<Individual>)
    requires |sorted| == |shuffled| == |next| && s.survivors <= |next| && s.keep <= |sorted|
    requires elite ==> shuffled == sorted
    requires shuffled[..s.keep] == sorted[..s.keep]
    requires next[..s.survivors] == shuffled[..s.survivors]
    ensures elite ==> next[..s.survivors] == sorted[..s.survivors]
    ensures s.keep <= s.survivors ==> next[..s.keep] == sorted[..s.keep]
    ensures s.survivors >= 1 && s.keep >= 1 ==> next[0] == sorted[0]
  {
    if s.keep <= s.survivors {
      PrefixSlices(next, shuffled, s.survivors, s.keep);
    }
    if s.survivors >= 1 && s.keep >= 1 {
      assert next[0] == next[..s.survivors][0] == shuffled[0];
      assert shuffled[0] == shuffled[..s.keep][0] == sorted[0];
    }
  }

  /**
   * The first fill loop: slot `survivors + i` of the population gets the mutated clone of
   * the parent drawn for it; the other slots keep their individuals.
   */
  method PlaceClones(m: Matrix, pop: seq<Individual>, s: Slots, d: GenerationDraws)
    returns (next: seq<Individual>)
    requires IsMatrix(m) && AllWellFormed(m, pop)
    requires s.survivors + s.cloned <= |pop| && ClonesFit(|m|, s, d)
    ensures AllWellFormed(m, next) && |next| == |pop|
    ensures next[..s.survivors] == pop[..s.survivors]
    ensures next[s.survivors + s.cloned..] == pop[s.survivors + s.cloned..]
    ensures ClonesAre(|m|, pop, d, next[s.survivors..s.survivors + s.cloned])
  {
    next := pop;
    ghost var kids: seq<Individual> := [];
    for i := 0 to s.cloned
      invariant |kids| == i && next == Spliced(pop, s.survivors, kids)
      invariant AllWellFormed(m, next) && ClonesAre(|m|, pop, d, kids)
    {
      SplicedKeepsBelow(pop, s.survivors, kids, d.cloneParents[i]);
      var parent := next[d.cloneParents[i]];
      assert parent in next;
      var child := Reproduce(m, parent, None, d.cuts[i]);
      ClonesExtend(|m|, pop, d, kids, child);
      FillStep(m, pop, s.survivors, kids, child);
      next := next[s.survivors + i := child];
      kids := kids + [child];
    }
    SplicedParts(pop, s.survivors, kids);
  }

  /**
   * The second fill loop: the slots after the clones get crossover children of the pairs
   * drawn for them; the slots before keep their individuals.
   */
  method PlaceCrossovers(m: Matrix, pop: seq<Individual>, s: Slots, d: GenerationDraws)
    returns (next: seq<Individual>)
    requires IsMatrix(m) && AllWellFormed(m, pop)
    requires s.cloned <= s.children && s.survivors + s.children == |pop| && CrossesFit(s, d)
    ensures AllWellFormed(m, next) && |next| == |pop|
    ensures next[..s.survivors + s.cloned] == pop[..s.survivors + s.cloned]
    ensures CrossesAre(pop, d, next[s.survivors + s.cloned..])
  {
    next := pop;
    ghost var kids: seq<Individual> := [];
    var at := s.survivors + s.cloned;
    for i := 0 to s.children - s.cloned
      invariant |kids| == i && next == Spliced(pop, at, kids)
      invariant AllWellFormed(m, next) && CrossesAre(pop, d, kids)
    {
      SplicedKeepsBelow(pop, at, kids, d.crossParents[i].0);
      SplicedKeepsBelow(pop, at, kids, d.crossParents[i].1);
      var self := next[d.crossParents[i].0];
      var partner := next[d.crossParents[i].1];
      assert self in next && partner in next;
      var child := Reproduce(m, self, Some(partner), CutDraw(0, 0));
      CrossesExtend(pop, d, kids, child);
      FillStep(m, pop, at, kids, child);
      next := next[at + i := child];
      kids := kids + [child];
    }
    SplicedParts(pop, at, kids);
  }

  datatype RunError = PopulationTooSmall

  class Population {
    var members: seq<Individual>

    ghost predicate Valid(m: Matrix)
      reads this
    {
      IsMatrix(m) && AllWellFormed(m, members)
    }

    /** `make_population`: `populationSize` random individuals, appended one at a time. */
    constructor (m: Matrix, draws: seq<seq<nat>>)
      requires IsMatrix(m) && forall i | 0 <= i < |draws| :: FitsShuffle(draws[i], |m|)
      ensures |members| == |draws|
      ensures forall i | 0 <= i < |draws| :: members[i].gene == Create(|m|, draws[i])
      ensures Valid(m)
    {
      members := [];
      new;
      for i := 0 to |draws|
        invariant |members| == i && AllWellFormed(m, members)
        invariant forall j | 0 <= j < i :: members[j].gene == Create(|m|, draws[j])
      {
        var x := RandomIndividual(m, draws[i]);
        AppendWellFormed(m, members, x);
        PushKeepsGenes(m, draws, members, x);
        members := members + [x];
      }
    }

    /** `population.sort(key=cost)`, then in non-elite mode the shuffle of the tail from `keep` on. */
    method SortAndShuffle(cfg: Config, d: GenerationDraws)
      requires ValidConfig(cfg)
      requires !cfg.elite ==> FitsShuffle(d.shuffle, |members| - SlotCounts(|members|, cfg).keep)
      modifies this
      ensures members == AfterShuffle(SortByCost(old(members)), cfg, d)
    {
      var keep := SlotCounts(|members|, cfg).keep;
      members := SortByCost(members);
      if !cfg.elite {
        var rest := members[keep..];
        rest := Shuffled(rest, d.shuffle);
        members := members[..keep] + rest;
      }
    }

    /** Both fill loops: every slot from `survivors` on gets a child of the slots below it. */
    method Refill(m: Matrix, s: Slots, d: GenerationDraws)
      requires Valid(m) && s.cloned <= s.children && s.survivors + s.children == |members|
      requires ClonesFit(|m|, s, d) && CrossesFit(s, d)
      modifies this
      ensures Valid(m)
      ensures IsNextGeneration(|m|, s, d, old(members), members)
    {
      var mid := PlaceClones(m, members, s, d);
      var next := PlaceCrossovers(m, mid, s, d);
      AssembleGeneration(|m|, s, d, members, mid, next);
      members := next;
    }

    /**
     * `generation`: sort by cost, shuffle the tail in non-elite mode, then overwrite the
     * slots from `survivors` on with mutation children and then crossover children whose
     * parents sit below `survivors`; the cheapest individual always keeps slot 0.
     */
    method Generation(m: Matrix, cfg: Config, d: GenerationDraws)
      requires Valid(m) && ValidConfig(cfg) && DrawsFit(|members|, |m|, cfg, d)
      modifies this
      ensures Valid(m) && |members| == old(|members|)
      ensures IsNextGeneration(|m|, SlotCounts(old(|members|), cfg), d,
                               AfterShuffle(SortByCost(old(members)), cfg, d), members)
      ensures GenerationStep(|m|, cfg, d, old(members), members)
      ensures var s := SlotCounts(old(|members|), cfg);
        cfg.elite ==> members[..s.survivors] == SortByCost(old(members))[..s.survivors]
      ensures var s := SlotCounts(old(|members|), cfg);
        !cfg.elite && s.keep <= s.survivors ==> members[..s.keep] == SortByCost(old(members))[..s.keep]
      ensures |members| >= 1 ==> members[0] == SortByCost(old(members))[0]
      ensures |members| >= 1 ==> MinCost(members) <= MinCost(old(members))
    {
      var len := |members|;
      var s := SlotCounts(len, cfg);
      ghost var start := members;
      SortAndShuffle(cfg, d);
      ghost var shuffled := members;
      RearrangedWellFormed(m, start, SortByCost(start));
      RearrangedWellFormed(m, SortByCost(start), shuffled);
      Refill(m, s, d);
      if len >= 1 {
        DrawsMeanSurvivors(len, |m|, cfg, d);
      }
      KeptPrefix(s, cfg.elite, SortByCost(start), shuffled, members);
      if len >= 1 {
        BestSurvives(start, members);
      }
    }

    /**
     * The loop of `run`: one `generation` per draw record, in order. `history` holds the
     * members before each generation and after the last one.
     */
    method PassGenerations(m: Matrix, cfg: Config, gds: seq<GenerationDraws>)
      returns (ghost history: seq<seq<Individual>>)
      requires Valid(m) && ValidConfig(cfg)
      requires forall g | 0 <= g < |gds| :: DrawsFit(|members|, |m|, cfg, gds[g])
      modifies this
      ensures Valid(m) && |members| == old(|members|)
      ensures |history| == |gds| + 1 && history[0] == old(members) && history[|gds|] == members
      ensures forall k | 0 <= k < |gds| :: GenerationStep(|m|, cfg, gds[k], history[k], history[k + 1])
      ensures |members| >= 1 ==> MinCost(members) <= MinCost(old(members))
    {
      history := [members];
      for g := 0 to |gds|
        invariant Valid(m) && |members| == old(|members|)
        invariant |history| == g + 1 && history[0] == old(members) && history[g] == members
        invariant forall k | 0 <= k < g :: GenerationStep(|m|, cfg, gds[k], history[k], history[k + 1])
        invariant |members| >= 1 ==> MinCost(members) <= MinCost(old(members))
      {
        Generation(m, cfg, gds[g]);
        HistoryExtends(|m|, cfg, gds, history, members);
        history := history + [members];
      }
    }
  }

  /** Appending the population after one more generation keeps every recorded step. */
  lemma HistoryExtends(n: nat, cfg: Config, gds: seq<GenerationDraws>,
                       history: seq<seq<Individual>>, next: seq<Individual>)
    requires 1 <= |history| <= |gds|
    requires forall k | 0 <= k < |history| - 1 :: GenerationStep(n, cfg, gds[k], history[k], history[k + 1])
    requires GenerationStep(n, cfg, gds[|history| - 1], history[|history| - 1], next)
    ensures var h := history + [next];
      forall k | 0 <= k < |h| - 1 :: GenerationStep(n, cfg, gds[k], h[k], h[k + 1])
  {
    var h := history + [next];
    forall k | 0 <= k < |h| - 1
      ensures GenerationStep(n, cfg, gds[k], h[k], h[k + 1])
    {
      assert h[k] == history[k];
      if k < |history| - 1 {
        assert h[k + 1] == history[k + 1];
      }
    }
  }

  /**
   * `run`: refuse a population below two, build the first population, pass
   * `nrOfGenerations - 1` generations and return the best individual of the last one.
   * The ghost `history` holds the population before each generation and after the last.
   */
  method Run(m: Matrix, cfg: Config, size: nat, generations: nat,
             createDraws: seq<seq<nat>>, generationDraws: seq<GenerationDraws>)
    returns (r: Result<Individual, RunError>, ghost history: seq<seq<Individual>>)
    requires IsMatrix(m) && ValidConfig(cfg)
    requires size >= 2 ==> |createDraws| == size && forall i | 0 <= i < size :: FitsShuffle(createDraws[i], |m|)
    requires size >= 2 ==> |generationDraws| == (if generations >= 1 then generations - 1 else 0)
    requires size >= 2 ==> forall g | 0 <= g < |generationDraws| :: DrawsFit(size, |m|, cfg, generationDraws[g])
    ensures r.Failure? <==> size < 2
    ensures r.Failure? ==> r.error == PopulationTooSmall
    ensures r.Success? ==> |history| == |generationDraws| + 1
    ensures r.Success? ==> |history[0]| == size && AllWellFormed(m, history[0])
    ensures r.Success? ==> forall i | 0 <= i < size :: history[0][i].gene == Create(|m|, createDraws[i])
    ensures r.Success? ==> forall g | 0 <= g < |generationDraws| ::
      GenerationStep(|m|, cfg, generationDraws[g], history[g], history[g + 1])
    ensures r.Success? ==> var last := history[|generationDraws|];
      |last| == size && r.value.cost == MinCost(last) &&
      exists i | 0 <= i < size :: last[i] == r.value && forall j | 0 <= j < i :: last[j].cost > r.value.cost
    ensures r.Success? ==> WellFormed(m, r.value)
    ensures r.Success? ==> forall i | 0 <= i < size :: r.value.cost <= TourCost(m, Create(|m|, createDraws[i]))
  {
    if size < 2 {
      return Failure(PopulationTooSmall), [];
    }
    var population := new Population(m, createDraws);
    ghost var initial := population.members;
    history := population.PassGenerations(m, cfg, generationDraws);
    var best := FindBest(population.members);
    ghost var at :| 0 <= at < size && population.members[at] == best;
    assert population.members[at] in population.members;
    forall i | 0 <= i < size
      ensures best.cost <= TourCost(m, Create(|m|, createDraws[i]))
    {
      assert initial[i] in initial;
    }
    r := Success(best);
  }
}
