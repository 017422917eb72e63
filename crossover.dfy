/**
 * Sexual reproduction: the edge-recombination crossover of `Individual.__reproduce_sexual`.
 *
 * The neighbour set of city `i` is filled with POSITIONS (`gene.index(...)`) at which the
 * parents hold the labels next to `i`, and the greedy walk then reads those positions as
 * city labels. The model keeps that mechanism exactly as the code has it.
 */
module Crossover {
  import opened Tours
  import opened Individuals

  /** Two parent genomes: permutations of the same `n >= 1` cities. */
  predicate Parents(a: seq<int>, b: seq<int>)
  {
    |a| >= 1 && IsPermutation(a, |a|) && IsPermutation(b, |a|)
  }

  /** `list.index`: the first position that holds `x`. */
  function IndexOf(g: seq<int>, x: int): (r: nat)
    requires x in g
    ensures r < |g| && g[r] == x
    ensures forall j | 0 <= j < r :: g[j] != x
  {
    if g[0] == x then 0 else 1 + IndexOf(g[1..], x)
  }

  /** The neighbour set the construction loop builds for city `i`. */
  function NeighbourSet(a: seq<int>, b: seq<int>, i: nat): set<int>
    requires Parents(a, b) && i < |a|
  {
    var n := |a|;
    PermutationCovers(a, n);
    PermutationCovers(b, n);
    if i == 0 then {IndexOf(a, n - 1)}
    else if i == n - 1 then {IndexOf(a, 0)}
    else {IndexOf(a, i - 1), IndexOf(a, i + 1), IndexOf(b, i - 1), IndexOf(b, i + 1)}
  }

  function NeighbourSets(a: seq<int>, b: seq<int>): (s: seq<set<int>>)
    requires Parents(a, b)
    ensures |s| == |a|
  {
    seq(|a|, i requires 0 <= i < |a| => NeighbourSet(a, b, i))
  }

  /** In a permutation the first position holding `v` is the only one. */
  lemma IndexOfIsUnique(g: seq<int>, v: int, y: int)
    requires Distinct(g) && v in g && 0 <= y < |g|
    ensures IndexOf(g, v) == y <==> g[y] == v
  {
  }

  /**
   * What the neighbour set of city `i` holds: exactly the positions `y` at which parent A
   * (and, for an inner city, parent B) has a label adjacent to `i`.
   */
  lemma NeighbourSetMembers(a: seq<int>, b: seq<int>, i: nat, y: int)
    requires Parents(a, b) && i < |a|
    ensures y in NeighbourSet(a, b, i) <==>
      0 <= y < |a| &&
      if i == 0 then a[y] == |a| - 1
      else if i == |a| - 1 then a[y] == 0
      else a[y] == i - 1 || a[y] == i + 1 || b[y] == i - 1 || b[y] == i + 1
  {
    var n := |a|;
    PermutationCovers(a, n);
    PermutationCovers(b, n);
    if 0 <= y < n {
      IndexOfIsUnique(a, n - 1, y);
      IndexOfIsUnique(a, 0, y);
      if 0 < i < n - 1 {
        IndexOfIsUnique(a, i - 1, y);
        IndexOfIsUnique(a, i + 1, y);
        IndexOfIsUnique(b, i - 1, y);
        IndexOfIsUnique(b, i + 1, y);
      }
    }
  }

  /** Every neighbour set holds city labels of the instance only. */
  lemma NeighbourSetsInRange(a: seq<int>, b: seq<int>)
    requires Parents(a, b)
    ensures forall i, y | 0 <= i < |a| && y in NeighbourSets(a, b)[i] :: 0 <= y < |a|
  {
    forall i, y | 0 <= i < |a| && y in NeighbourSets(a, b)[i]
      ensures 0 <= y < |a|
    {
      NeighbourSetMembers(a, b, i, y);
    }
  }

  /** The `add` calls for city `i`: its neighbour set joins whatever `s` already holds. */
  method AddNeighbours(a: seq<int>, b: seq<int>, i: nat, s: set<int>) returns (r: set<int>)
    requires Parents(a, b) && i < |a|
    ensures r == s + NeighbourSet(a, b, i)
  {
    var n := |a|;
    PermutationCovers(a, n);
    PermutationCovers(b, n);
    r := s;
    if i == 0 {
      r := r + {IndexOf(a, n - 1)};
    } else if i == n - 1 {
      r := r + {IndexOf(a, 0)};
    } else {
      r := r + {IndexOf(a, i - 1)};
      r := r + {IndexOf(a, i + 1)};
      r := r + {IndexOf(b, i - 1)};
      r := r + {IndexOf(b, i + 1)};
    }
  }

  /** The construction loop: one empty set per city, then the `add` calls for each city. */
  method BuildNeighbourSets(a: seq<int>, b: seq<int>) returns (sets: seq<set<int>>)
    requires Parents(a, b)
    ensures sets == NeighbourSets(a, b)
  {
    var n := |a|;
    sets := seq(n, _ => {});
    for i := 0 to n
      invariant |sets| == n
      invariant forall j | 0 <= j < i :: sets[j] == NeighbourSet(a, b, j)
      invariant forall j | i <= j < n :: sets[j] == {}
    {
      var added := AddNeighbours(a, b, i, sets[i]);
      sets := sets[i := added];
    }
  }

  /** `for i in neighbor_sets: i.discard(city)`. */
  method DiscardEverywhere(sets: seq<set<int>>, city: int) returns (r: seq<set<int>>)
    ensures |r| == |sets|
    ensures forall i | 0 <= i < |sets| :: r[i] == sets[i] - {city}
  {
    r := sets;
    for i := 0 to |sets|
      invariant |r| == |sets|
      invariant forall j | 0 <= j < i :: r[j] == sets[j] - {city}
      invariant forall j | i <= j < |sets| :: r[j] == sets[j]
    {
      r := r[i := r[i] - {city}];
    }
  }

  /**
   * The scan over the current city's set with `min = nrOfCities` and a strict `<`: the
   * member it settles on has the fewest remaining neighbours. The set is iterated in an
   * arbitrary order, so among several minimal members any one may be chosen.
   */
  method PickFewest(sets: seq<set<int>>, cur: nat, n: nat) returns (next: int)
    requires cur < |sets| && sets[cur] != {}
    requires forall y | y in sets[cur] :: 0 <= y < |sets| && |sets[y]| < n
    ensures next in sets[cur]
    ensures forall y | y in sets[cur] :: |sets[next]| <= |sets[y]|
  {
    var min := n;
    next := cur;
    var todo := sets[cur];
    while todo != {}
      invariant todo <= sets[cur]
      invariant min <= n
      invariant min < n ==> next in sets[cur] && min == |sets[next]|
      invariant forall y | y in sets[cur] && y !in todo :: min <= |sets[y]|
      decreases todo
    {
      HasMember(todo);
      var y :| y in todo;
      if |sets[y]| < min {
        min := |sets[y]|;
        next := y;
      }
      todo := todo - {y};
    }
    HasMember(sets[cur]);
    var some :| some in sets[cur];
    assert |sets[some]| < n;
  }

  /**
   * The step from the child built so far (`prefix`, its last entry the current city) to the
   * next city, for neighbour sets that started as `init`: when the current city's remaining
   * set is non-empty, `next` is one of its members with the fewest remaining neighbours;
   * otherwise `next` is any city not used yet.
   */
  ghost predicate FollowsEdgeRule(init: seq<set<int>>, prefix: seq<int>, next: int)
  {
    |prefix| >= 1 && 0 <= prefix[|prefix| - 1] < |init| &&
    var used := Elems(prefix);
    var here := init[prefix[|prefix| - 1]] - used;
    if here != {} then
      next in here && 0 <= next < |init| &&
      forall y | y in here && 0 <= y < |init| :: |init[next] - used| <= |init[y] - used|
    else
      0 <= next < |init| && next !in used
  }

  /** Every city of `c` after the first was chosen from the ones before it by the edge rule. */
  ghost predicate EdgeRuleWalk(init: seq<set<int>>, c: seq<int>)
  {
    if |c| <= 1 then true
    else EdgeRuleWalk(init, c[..|c| - 1]) && FollowsEdgeRule(init, c[..|c| - 1], c[|c| - 1])
  }

  /** Every genome the crossover can produce from the parents `a` and `b`. */
  ghost predicate IsErxChild(a: seq<int>, b: seq<int>, c: seq<int>)
    requires Parents(a, b)
  {
    |c| == |a| && c[0] == a[0] && EdgeRuleWalk(NeighbourSets(a, b), c)
  }

  /** A city chosen by the edge rule is a city of the instance not used so far. */
  lemma RuleGivesFreshCity(init: seq<set<int>>, prefix: seq<int>, next: int)
    requires FollowsEdgeRule(init, prefix, next)
    ensures 0 <= next < |init| && next !in prefix
  {
    var used := Elems(prefix);
    var here := init[prefix[|prefix| - 1]] - used;
    if here != {} {
      assert next in here;
    }
  }

  /** The last city of a walk is a fresh city chosen from the walk before it. */
  lemma WalkStep(init: seq<set<int>>, c: seq<int>)
    requires |c| > 1 && EdgeRuleWalk(init, c)
    ensures EdgeRuleWalk(init, c[..|c| - 1])
    ensures 0 <= c[|c| - 1] < |init| && c[|c| - 1] !in c[..|c| - 1]
  {
    RuleGivesFreshCity(init, c[..|c| - 1], c[|c| - 1]);
  }

  lemma AppendFresh(p: seq<int>, x: int, n: int)
    requires InRange(p, n) && Distinct(p) && 0 <= x < n && x !in p
    ensures InRange(p + [x], n) && Distinct(p + [x])
  {
  }

  /** A walk that starts at a city of the instance never repeats a city nor leaves the instance. */
  lemma {:induction false} WalkIsDistinct(init: seq<set<int>>, c: seq<int>)
    requires EdgeRuleWalk(init, c) && |c| >= 1 && 0 <= c[0] < |init|
    ensures InRange(c, |init|) && Distinct(c)
  {
    if |c| > 1 {
      var p, x := c[..|c| - 1], c[|c| - 1];
      WalkStep(init, c);
      WalkIsDistinct(init, p);
      AppendFresh(p, x, |init|);
      assert c == p + [x];
    }
  }

  /** The edge rule alone forces a duplicate-free child that visits every city. */
  lemma ErxChildIsPermutation(a: seq<int>, b: seq<int>, c: seq<int>)
    requires Parents(a, b) && IsErxChild(a, b, c)
    ensures IsPermutation(c, |a|)
  {
    WalkIsDistinct(NeighbourSets(a, b), c);
  }

  lemma WalkExtends(init: seq<set<int>>, c: seq<int>, next: int)
    requires EdgeRuleWalk(init, c)
    requires |c| >= 1 ==> FollowsEdgeRule(init, c, next)
    ensures EdgeRuleWalk(init, c + [next])
  {
    var d := c + [next];
    assert d[..|d| - 1] == c;
  }

  /** Discarding the newly appended city keeps every set equal to its start minus the used cities. */
  lemma DiscardKeepsRemaining(init: seq<set<int>>, before: seq<set<int>>, after: seq<set<int>>, c: seq<int>, city: int)
    requires |before| == |init| && |after| == |init|
    requires forall i | 0 <= i < |init| :: before[i] == init[i] - Elems(c)
    requires forall i | 0 <= i < |init| :: after[i] == before[i] - {city}
    ensures forall i | 0 <= i < |init| :: after[i] == init[i] - Elems(c + [city])
  {
    assert Elems(c + [city]) == Elems(c) + {city};
    forall i | 0 <= i < |init|
      ensures after[i] == init[i] - Elems(c + [city])
    {
      assert before[i] == init[i] - Elems(c);
      assert after[i] == before[i] - {city};
    }
  }

  /** Every remaining set holds only unused cities, so its size is below `n` once a city is used. */
  lemma RemainingIsSmall(init: seq<set<int>>, sets: seq<set<int>>, c: seq<int>)
    requires |sets| == |init| && |c| >= 1 && InRange(c, |init|) && Distinct(c)
    requires forall i, y | 0 <= i < |init| && y in init[i] :: 0 <= y < |init|
    requires forall i | 0 <= i < |init| :: sets[i] == init[i] - Elems(c)
    ensures forall y | 0 <= y < |init| :: |sets[y]| < |init|
  {
    var n := |init|;
    UnusedCard(c, n);
    forall y | 0 <= y < n
      ensures |sets[y]| < n
    {
      forall z | z in sets[y]
        ensures z in Cities(n) - Elems(c)
      {
        assert z in init[y];
        assert Range(n)[z] == z;
      }
      assert sets[y] <= Cities(n) - Elems(c);
      SubsetCard(sets[y], Cities(n) - Elems(c));
    }
  }

  /** The remaining neighbours of a used city can be scanned: each is a city with a small set. */
  lemma ScanIsDefined(init: seq<set<int>>, sets: seq<set<int>>, c: seq<int>, cur: int)
    requires |sets| == |init| && |c| >= 1 && InRange(c, |init|) && Distinct(c) && 0 <= cur < |init|
    requires forall i, y | 0 <= i < |init| && y in init[i] :: 0 <= y < |init|
    requires forall i | 0 <= i < |init| :: sets[i] == init[i] - Elems(c)
    ensures forall y | y in sets[cur] :: 0 <= y < |sets| && |sets[y]| < |init|
  {
    RemainingIsSmall(init, sets, c);
    forall y | y in sets[cur]
      ensures 0 <= y < |sets|
    {
      assert y in init[cur];
    }
  }

  /** A member of the current city's remaining set with a minimal remaining set obeys the rule. */
  lemma FewestFollowsRule(init: seq<set<int>>, sets: seq<set<int>>, c: seq<int>, next: int)
    requires |sets| == |init| && |c| >= 1 && 0 <= c[|c| - 1] < |init|
    requires forall i | 0 <= i < |init| :: sets[i] == init[i] - Elems(c)
    requires next in sets[c[|c| - 1]] && 0 <= next < |init|
    requires forall y | y in sets[c[|c| - 1]] && 0 <= y < |init| :: |sets[next]| <= |sets[y]|
    ensures FollowsEdgeRule(init, c, next)
  {
    var here := init[c[|c| - 1]] - Elems(c);
    assert here == sets[c[|c| - 1]];
    forall y | y in here && 0 <= y < |init|
      ensures |init[next] - Elems(c)| <= |init[y] - Elems(c)|
    {
      assert sets[y] == init[y] - Elems(c);
    }
  }

  /** When the current city has no neighbour left, any unused city obeys the rule. */
  lemma FreeFollowsRule(init: seq<set<int>>, sets: seq<set<int>>, c: seq<int>, next: int)
    requires |sets| == |init| && |c| >= 1 && 0 <= c[|c| - 1] < |init|
    requires forall i | 0 <= i < |init| :: sets[i] == init[i] - Elems(c)
    requires sets[c[|c| - 1]] == {} && 0 <= next < |init| && next !in c
    ensures FollowsEdgeRule(init, c, next)
  {
    assert init[c[|c| - 1]] - Elems(c) == sets[c[|c| - 1]];
  }

  /**
   * The choice at the end of the loop body, once the current city (the last of `c`) has
   * been used: a member of its remaining set with the fewest remaining neighbours or, when
   * that set is empty, any unused city (`set.pop` may return any of them).
   */
  method ChooseNext(ghost init: seq<set<int>>, sets: seq<set<int>>, c: seq<int>) returns (next: int)
    requires forall i, y | 0 <= i < |init| && y in init[i] :: 0 <= y < |init|
    requires 1 <= |c| <= |init| && InRange(c, |init|) && Distinct(c)
    requires |sets| == |init| && forall i | 0 <= i < |init| :: sets[i] == init[i] - Elems(c)
    ensures |c| < |init| ==> 0 <= next < |init| && next !in c && FollowsEdgeRule(init, c, next)
  {
    var n := |sets|;
    var city := c[|c| - 1];
    next := city;
    if sets[city] != {} {
      ScanIsDefined(init, sets, c, city);
      next := PickFewest(sets, city, n);
      FewestFollowsRule(init, sets, c, next);
      RuleGivesFreshCity(init, c, next);
    } else {
      UnusedCard(c, n);
      var difference := Cities(n) - Elems(c);
      if |difference| > 0 {
        HasMember(difference);
        next :| next in difference;
        assert Range(n)[next] == next;
        FreeFollowsRule(init, sets, c, next);
      }
    }
  }

  /** One pass of the walk's loop body: append the current city, discard it, choose the next. */
  method ErxStep(ghost init: seq<set<int>>, sets: seq<set<int>>, c: seq<int>, city: int)
    returns (sets': seq<set<int>>, c': seq<int>, next: int)
    requires forall i, y | 0 <= i < |init| && y in init[i] :: 0 <= y < |init|
    requires |c| < |init| && InRange(c, |init|) && Distinct(c)
    requires |sets| == |init| && forall i | 0 <= i < |init| :: sets[i] == init[i] - Elems(c)
    requires 0 <= city < |init| && city !in c
    requires EdgeRuleWalk(init, c) && (|c| >= 1 ==> FollowsEdgeRule(init, c, city))
    ensures c' == c + [city]
    ensures InRange(c', |init|) && Distinct(c') && EdgeRuleWalk(init, c')
    ensures |sets'| == |init| && forall i | 0 <= i < |init| :: sets'[i] == init[i] - Elems(c')
    ensures |c'| < |init| ==> 0 <= next < |init| && next !in c' && FollowsEdgeRule(init, c', next)
  {
    WalkExtends(init, c, city);
    AppendKeepsDistinct(c, city);
    c' := c + [city];
    sets' := DiscardEverywhere(sets, city);
    DiscardKeepsRemaining(init, sets, sets', c, city);
    next := ChooseNext(init, sets', c');
  }

  /**
   * The greedy walk of `__reproduce_sexual`, from city `start` through (a working copy of)
   * the neighbour sets `init` until every city is used: each city after the first follows
   * the edge rule.
   */
  method Walk(init: seq<set<int>>, start: int) returns (c: seq<int>)
    requires forall i, y | 0 <= i < |init| && y in init[i] :: 0 <= y < |init|
    requires 0 <= start < |init|
    ensures |c| == |init| && c[0] == start && EdgeRuleWalk(init, c)
  {
    var n := |init|;
    var rest := init;
    c := [];
    var city := start;
    while |c| < n
      invariant |c| <= n
      invariant InRange(c, n) && Distinct(c)
      invariant |rest| == n && forall i | 0 <= i < n :: rest[i] == init[i] - Elems(c)
      invariant |c| < n ==> 0 <= city < n && city !in c
      invariant c == [] ==> city == start
      invariant c != [] ==> c[0] == start
      invariant EdgeRuleWalk(init, c)
      invariant 0 < |c| < n ==> FollowsEdgeRule(init, c, city)
      decreases n - |c|
    {
      rest, c, city := ErxStep(init, rest, c, city);
    }
  }

  /** `__reproduce_sexual`: build the neighbour sets, then walk greedily through them. */
  method ReproduceSexual(m: Matrix, self: Individual, partner: Individual) returns (child: Individual)
    requires WellFormed(m, self) && WellFormed(m, partner)
    ensures IsErxChild(self.gene, partner.gene, child.gene)
    ensures WellFormed(m, child)
  {
    var a, b := self.gene, partner.gene;
    var sets := BuildNeighbourSets(a, b);
    NeighbourSetsInRange(a, b);
    var gene := Walk(sets, a[0]);
    ErxChildIsPermutation(a, b, gene);
    var r := NewIndividual(m, gene);
    child := r.value;
  }
}
