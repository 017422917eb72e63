/** Asexual reproduction: cloning with an inversion mutation (`Individual.__reproduce_clone`). */
module Mutation {
  import opened Tours
  import opened Individuals

  /** The two `random.choice` results: `first` from `range(n-2)`, `second` from `range(n-2-cut1)`. */
  datatype CutDraw = CutDraw(first: nat, second: nat)

  predicate FitsCuts(n: nat, d: CutDraw)
  {
    d.first < n - 2 && d.second < n - 2 - d.first
  }

  datatype Cuts = Cuts(cut1: nat, cut2: nat)

  /** `cut1` is the first draw and `cut2` the second draw shifted by `cut1 + 2`. */
  function CutPoints(n: nat, d: CutDraw): (c: Cuts)
    requires FitsCuts(n, d)
    ensures 0 <= c.cut1 <= n - 3 && c.cut1 + 2 <= c.cut2 <= n - 1
    ensures c.cut1 == d.first && c.cut2 - c.cut1 - 2 == d.second
  {
    Cuts(d.first, d.second + d.first + 2)
  }

  function Reversed(s: seq<int>): (r: seq<int>)
    ensures |r| == |s| && forall k | 0 <= k < |s| :: r[k] == s[|s| - 1 - k]
    ensures multiset(r) == multiset(s)
  {
    if s == [] then []
    else
      assert s == [s[0]] + s[1..];
      Reversed(s[1..]) + [s[0]]
  }

  /** The position of the original genome that lands at position `k` of the mutated one. */
  function Origin(c: Cuts, k: int): int
  {
    if c.cut1 <= k <= c.cut2 then c.cut1 + c.cut2 - k else k
  }

  /**
   * The mutated genome: the unchanged prefix before `cut1`, the segment `[cut1, cut2]`
   * reversed, and the unchanged suffix after `cut2`; position `k` holds the original
   * entry at `Origin(c, k)`.
   */
  function Mutate(g: seq<int>, c: Cuts): (r: seq<int>)
    requires c.cut1 + 2 <= c.cut2 < |g|
    ensures |r| == |g|
    ensures forall k | 0 <= k < |g| :: 0 <= Origin(c, k) < |g| && r[k] == g[Origin(c, k)]
  {
    var n := |g|;
    var prefix := if c.cut1 > 0 then g[0..c.cut1] else [];
    var suffix := if c.cut2 < n - 1 then g[c.cut2 + 1..n] else [];
    var r := prefix + Reversed(g[c.cut1..c.cut2 + 1]) + suffix;
    assert |prefix| == c.cut1;
    r
  }

  /** Position `k` of the mutated genome, splitting the three cases of `Origin`. */
  lemma MutateAt(g: seq<int>, c: Cuts, k: nat)
    requires c.cut1 + 2 <= c.cut2 < |g| && k < |g|
    ensures k < c.cut1 ==> Mutate(g, c)[k] == g[k]
    ensures c.cut1 <= k <= c.cut2 ==> Mutate(g, c)[k] == g[c.cut1 + c.cut2 - k]
    ensures c.cut2 < k ==> Mutate(g, c)[k] == g[k]
  {
  }

  lemma MutateAsSlices(g: seq<int>, c: Cuts)
    requires c.cut1 + 2 <= c.cut2 < |g|
    ensures Mutate(g, c) == g[..c.cut1] + Reversed(g[c.cut1..c.cut2 + 1]) + g[c.cut2 + 1..]
  {
    var n := |g|;
    var prefix := if c.cut1 > 0 then g[0..c.cut1] else [];
    var suffix := if c.cut2 < n - 1 then g[c.cut2 + 1..n] else [];
    assert prefix == g[..c.cut1];
    assert suffix == g[c.cut2 + 1..];
  }

  /** `Origin` undoes itself: reversing a segment twice puts every position back. */
  lemma OriginTwice(c: Cuts, k: int)
    ensures Origin(c, Origin(c, k)) == k
  {
  }

  /** `Origin` never sends two positions to the same place. */
  lemma OriginIsInjective(c: Cuts, i: int, j: int)
    requires i != j
    ensures Origin(c, i) != Origin(c, j)
  {
  }

  lemma MutateKeepsDistinct(g: seq<int>, c: Cuts)
    requires c.cut1 + 2 <= c.cut2 < |g| && Distinct(g)
    ensures Distinct(Mutate(g, c))
  {
    var r := Mutate(g, c);
    forall i, j | 0 <= i < j < |r|
      ensures r[i] != r[j]
    {
      OriginIsInjective(c, i, j);
    }
  }

  /** The mutation only rearranges the genome, so a permutation stays a permutation. */
  lemma MutateKeepsPermutation(g: seq<int>, c: Cuts, n: nat)
    requires c.cut1 + 2 <= c.cut2 < |g| && IsPermutation(g, n)
    ensures multiset(Mutate(g, c)) == multiset(g)
    ensures IsPermutation(Mutate(g, c), n)
  {
    var mid := g[c.cut1..c.cut2 + 1];
    assert g == g[..c.cut1] + mid + g[c.cut2 + 1..];
    MutateAsSlices(g, c);
    MutateKeepsDistinct(g, c);
  }

  /** Inverting the same segment twice gives back the original genome. */
  lemma MutateIsInvolution(g: seq<int>, c: Cuts)
    requires c.cut1 + 2 <= c.cut2 < |g|
    ensures Mutate(Mutate(g, c), c) == g
  {
    var once := Mutate(g, c);
    var r := Mutate(once, c);
    forall k | 0 <= k < |g|
      ensures r[k] == g[k]
    {
      var o := Origin(c, k);
      OriginTwice(c, k);
      assert r[k] == once[o] == g[Origin(c, o)];
    }
  }

  /** `__reproduce_clone`: a new individual from the parent's genome with one segment inverted. */
  method ReproduceClone(m: Matrix, parent: Individual, d: CutDraw) returns (child: Individual)
    requires WellFormed(m, parent) && FitsCuts(|m|, d)
    ensures child.gene == Mutate(parent.gene, CutPoints(|m|, d))
    ensures WellFormed(m, child)
  {
    var c := CutPoints(|m|, d);
    var gene := Mutate(parent.gene, c);
    MutateKeepsPermutation(parent.gene, c, |m|);
    var r := NewIndividual(m, gene);
    child := r.value;
  }
}
