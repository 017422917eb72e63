/** Cost matrices, tours and the fitness function of the genetic TSP solver. */
module Tours {

  /** Row `i` holds the cost of travelling from city `i` to every city; need not be symmetric. */
  type Matrix = seq<seq<real>>

  /** A non-empty square matrix: the number of cities is its number of rows. */
  predicate IsMatrix(m: Matrix)
  {
    |m| >= 1 && forall i | 0 <= i < |m| :: |m[i]| == |m|
  }

  /** Every entry of `g` is a city label below `n`. */
  predicate InRange(g: seq<int>, n: int)
  {
    forall i | 0 <= i < |g| :: 0 <= g[i] < n
  }

  predicate Distinct(g: seq<int>)
  {
    forall i, j | 0 <= i < j < |g| :: g[i] != g[j]
  }

  /** `g` visits each of the cities `0 .. n-1` exactly once. */
  predicate IsPermutation(g: seq<int>, n: int)
  {
    |g| == n && InRange(g, n) && Distinct(g)
  }

  /** A genome of the right length whose entries index the matrix. */
  predicate IsTour(m: Matrix, g: seq<int>)
  {
    IsMatrix(m) && |g| == |m| && InRange(g, |m|)
  }

  /** The list [0, 1, ..., n-1]. */
  function Range(n: nat): (r: seq<int>)
    ensures |r| == n && forall i | 0 <= i < n :: r[i] == i
  {
    seq(n, i => i)
  }

  function Elems(g: seq<int>): set<int>
  {
    set x | x in g
  }

  /** The set {0, 1, ..., n-1} of all city labels. */
  function Cities(n: nat): set<int>
  {
    Elems(Range(n))
  }

  // ---------------------------------------------------------------------------
  // Counting lemmas about permutations

  lemma SubsetCard(a: set<int>, b: set<int>)
    requires a <= b
    ensures |a| <= |b|
  {
    assert b == a + (b - a);
  }

  lemma {:induction false} DistinctCard(g: seq<int>)
    requires Distinct(g)
    ensures |Elems(g)| == |g|
  {
    if |g| > 0 {
      var p := g[..|g| - 1];
      DistinctCard(p);
      assert g == p + [g[|g| - 1]];
      assert Elems(g) == Elems(p) + {g[|g| - 1]};
      assert g[|g| - 1] !in Elems(p);
    }
  }

  lemma EmptyWithoutMembers(s: set<int>)
    requires forall x :: x !in s
    ensures s == {}
  {
    assert forall x :: x !in s;
    assert s <= {};
  }

  /** A non-empty set has a member that a `:|` choice can pick. */
  lemma HasMember(s: set<int>)
    requires s != {}
    ensures exists x :: x in s
  {
    if forall x :: x !in s {
      EmptyWithoutMembers(s);
      assert false;
    }
  }

  lemma AppendKeepsDistinct(q: seq<int>, x: int)
    requires Distinct(q) && x !in q
    ensures Distinct(q + [x])
  {
  }

  /** The cities a duplicate-free, in-range prefix has not used yet number exactly `n - |g|`. */
  lemma UnusedCard(g: seq<int>, n: nat)
    requires InRange(g, n) && Distinct(g)
    ensures Elems(g) <= Cities(n)
    ensures |Cities(n) - Elems(g)| == n - |g|
  {
    DistinctCard(Range(n));
    DistinctCard(g);
    forall x | x in Elems(g)
      ensures x in Cities(n)
    {
      assert Range(n)[x] == x;
    }
    assert Cities(n) == Elems(g) + (Cities(n) - Elems(g));
  }

  /** A permutation of `0 .. n-1` contains every city, so `list.index` finds each one. */
  lemma PermutationCovers(g: seq<int>, n: nat)
    requires IsPermutation(g, n)
    ensures forall c | 0 <= c < n :: c in g
  {
    UnusedCard(g, n);
    assert Cities(n) - Elems(g) == {};
    forall c | 0 <= c < n
      ensures c in g
    {
      assert Range(n)[c] == c;
      assert c in Cities(n);
    }
  }

  // ---------------------------------------------------------------------------
  // Tour cost

  /** The edge leaving position `i` of the tour, read from `g[i]` to its successor. */
  function Edge(m: Matrix, g: seq<int>, i: nat): real
    requires IsTour(m, g) && i < |g|
  {
    m[g[i]][g[Next(i, |g|)]]
  }

  /** The position after `i` on a cycle of length `n`. */
  function Next(i: nat, n: nat): nat
    requires i < n
  {
    if i + 1 < n then i + 1 else 0
  }

  /** The sum of the first `k` edges of the closed tour `g`. */
  function CyclicSum(m: Matrix, g: seq<int>, k: nat): real
    requires IsTour(m, g) && k <= |g|
  {
    if k == 0 then 0.0 else CyclicSum(m, g, k - 1) + Edge(m, g, k - 1)
  }

  /** The cost of the Hamiltonian cycle `g`: every edge, the wrap-around one included. */
  function TourCost(m: Matrix, g: seq<int>): real
    requires IsTour(m, g)
  {
    CyclicSum(m, g, |g|)
  }

  /** The cost of the open path `g[0] -> g[1] -> ... -> g[k]`. */
  function PathCost(m: Matrix, g: seq<int>, k: nat): real
    requires IsTour(m, g) && k < |g|
  {
    if k == 0 then 0.0 else PathCost(m, g, k - 1) + m[g[k - 1]][g[k]]
  }

  lemma {:induction false} CyclicSumIsPathCost(m: Matrix, g: seq<int>, k: nat)
    requires IsTour(m, g) && k < |g|
    ensures CyclicSum(m, g, k) == PathCost(m, g, k)
  {
    if k > 0 {
      CyclicSumIsPathCost(m, g, k - 1);
    }
  }

  /** The tour cost is the path cost plus the edge back from the last city to the first. */
  lemma TourCostIsPathPlusReturn(m: Matrix, g: seq<int>)
    requires IsTour(m, g)
    ensures TourCost(m, g) == PathCost(m, g, |g| - 1) + m[g[|g| - 1]][g[0]]
  {
    CyclicSumIsPathCost(m, g, |g| - 1);
  }

  /** `Individual.evaluate`: accumulate the edges along the genome, then the return edge. */
  method Evaluate(m: Matrix, g: seq<int>) returns (cost: real)
    requires IsTour(m, g)
    ensures cost == PathCost(m, g, |g| - 1) + m[g[|g| - 1]][g[0]]
    ensures cost == TourCost(m, g)
  {
    var n := |m|;
    cost := 0.0;
    for i := 0 to n - 1
      invariant cost == PathCost(m, g, i)
    {
      cost := cost + m[g[i]][g[i + 1]];
    }
    cost := cost + m[g[n - 1]][g[0]];
    TourCostIsPathPlusReturn(m, g);
  }

  // ---------------------------------------------------------------------------
  // The cost belongs to the cycle, not to its starting city

  /** The same cycle started one city later. */
  function Rotated(g: seq<int>): seq<int>
    requires |g| >= 1
  {
    g[1..] + [g[0]]
  }

  lemma {:induction false} RotatedPrefixSum(m: Matrix, g: seq<int>, k: nat)
    requires IsTour(m, g) && IsTour(m, Rotated(g)) && k < |g|
    ensures CyclicSum(m, Rotated(g), k) == CyclicSum(m, g, k + 1) - Edge(m, g, 0)
  {
    var r := Rotated(g);
    if k > 0 {
      RotatedPrefixSum(m, g, k - 1);
      assert r[k - 1] == g[k];
      assert r[k] == g[Next(k, |g|)];
      assert Edge(m, r, k - 1) == Edge(m, g, k);
    }
  }

  /** Starting the tour at its second city leaves the cost unchanged, even for an asymmetric matrix. */
  lemma RotationKeepsCost(m: Matrix, g: seq<int>)
    requires IsTour(m, g)
    ensures IsTour(m, Rotated(g))
    ensures TourCost(m, Rotated(g)) == TourCost(m, g)
  {
    var r := Rotated(g);
    var n := |g|;
    assert forall i | 0 <= i < n :: r[i] == g[Next(i, n)];
    assert IsTour(m, r);
    if n == 1 {
      assert r == g;
    } else {
      RotatedPrefixSum(m, g, n - 1);
      assert Edge(m, r, n - 1) == Edge(m, g, 0);
    }
  }
}
