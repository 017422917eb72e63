/** Ordering individuals by cost: `population.sort(key=cost)` and `findbest`. */
module Ordering {
  import opened Individuals

  predicate SortedByCost(s: seq<Individual>)
  {
    forall i, j | 0 <= i < j < |s| :: s[i].cost <= s[j].cost
  }

  /** Insert `x` before the first individual that costs at least as much. */
  function Insert(x: Individual, s: seq<Individual>): (r: seq<Individual>)
    requires SortedByCost(s)
    ensures SortedByCost(r)
    ensures multiset(r) == multiset(s) + multiset{x}
    ensures forall y | y in r :: y == x || y in s
  {
    if s == [] then [x]
    else if x.cost <= s[0].cost then [x] + s
    else
      var rest := Insert(x, s[1..]);
      assert s == [s[0]] + s[1..];
      HeadBelowRest(s[0], x, s[1..], rest);
      [s[0]] + rest
  }

  lemma HeadBelowRest(h: Individual, x: Individual, t: seq<Individual>, rest: seq<Individual>)
    requires SortedByCost([h] + t) && h.cost <= x.cost
    requires forall y | y in rest :: y == x || y in t
    ensures forall k | 0 <= k < |rest| :: h.cost <= rest[k].cost
  {
    forall k | 0 <= k < |rest|
      ensures h.cost <= rest[k].cost
    {
      assert rest[k] in rest;
      if rest[k] != x {
        var j :| 0 <= j < |t| && t[j] == rest[k];
        assert ([h] + t)[0] == h && ([h] + t)[j + 1] == t[j];
      }
    }
  }

  /** The population after `list.sort` by cost: ordered by cost and a rearrangement of the input. */
  function SortByCost(s: seq<Individual>): (r: seq<Individual>)
    ensures SortedByCost(r)
    ensures multiset(r) == multiset(s)
    ensures |r| == |s|
  {
    if s == [] then []
    else
      assert s == [s[0]] + s[1..];
      Insert(s[0], SortByCost(s[1..]))
  }

  /** The lowest cost in a non-empty population. */
  function MinCost(s: seq<Individual>): (r: real)
    requires |s| >= 1
    ensures exists i | 0 <= i < |s| :: s[i].cost == r
    ensures forall i | 0 <= i < |s| :: r <= s[i].cost
  {
    if |s| == 1 then s[0].cost
    else
      var rest := MinCost(s[1..]);
      assert forall i | 1 <= i < |s| :: s[i] == s[1..][i - 1];
      if s[0].cost <= rest then s[0].cost else rest
  }

  /** Two populations holding the same individuals have the same lowest cost. */
  lemma MinCostOfRearrangement(s: seq<Individual>, t: seq<Individual>)
    requires |s| >= 1 && multiset(s) == multiset(t)
    ensures |t| >= 1 && MinCost(s) == MinCost(t)
  {
    assert |t| == |s| by {
      assert |multiset(t)| == |multiset(s)|;
    }
    var i :| 0 <= i < |s| && s[i].cost == MinCost(s);
    var j :| 0 <= j < |t| && t[j].cost == MinCost(t);
    assert s[i] in multiset(t);
    assert t[j] in multiset(s);
  }

  /** After the sort, the first individual is a cheapest one. */
  lemma SortedHeadIsCheapest(s: seq<Individual>)
    requires |s| >= 1
    ensures SortByCost(s)[0].cost == MinCost(s)
  {
    var r := SortByCost(s);
    MinCostOfRearrangement(s, r);
    var j :| 0 <= j < |r| && r[j].cost == MinCost(r);
    assert r[0].cost <= r[j].cost;
  }

  /** `findbest`: the first individual of minimal cost, in whatever order the population is. */
  method FindBest(pop: seq<Individual>) returns (best: Individual)
    requires |pop| >= 1
    ensures best.cost == MinCost(pop)
    ensures exists i | 0 <= i < |pop| :: pop[i] == best && forall j | 0 <= j < i :: pop[j].cost > best.cost
  {
    best := pop[0];
    ghost var at := 0;
    for i := 0 to |pop|
      invariant 0 <= at < |pop|
      invariant pop[at] == best
      invariant forall j | 0 <= j < at :: pop[j].cost > best.cost
      invariant forall j | 0 <= j < i :: best.cost <= pop[j].cost
    {
      if pop[i].cost < best.cost {
        best := pop[i];
        at := i;
      }
    }
  }
}
