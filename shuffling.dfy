/**
 * `random.shuffle` with its random draws made explicit. The shuffle walks the list from the
 * back: for each position `i` from the last down to 1 it swaps `s[i]` with `s[draws[i]]`,
 * where the draw is any index `draws[i] <= i` (Fisher-Yates).
 */
module Shuffling {
  import opened Tours

  function Swap<T>(s: seq<T>, i: nat, j: nat): (r: seq<T>)
    requires i < |s| && j < |s|
    ensures |r| == |s| && r[i] == s[j] && r[j] == s[i]
    ensures forall k | 0 <= k < |s| && k != i && k != j :: r[k] == s[k]
    ensures multiset(r) == multiset(s)
  {
    s[i := s[j]][j := s[i]]
  }

  /** One admissible draw per position: the draw for position `i` is at most `i`. */
  predicate FitsShuffle(draws: seq<nat>, len: nat)
  {
    |draws| == len && forall i | 0 <= i < len :: draws[i] <= i
  }

  /** The list `s` after `random.shuffle` took the draws `draws`: a rearrangement of `s`. */
  function Shuffled<T>(s: seq<T>, draws: seq<nat>): (r: seq<T>)
    requires FitsShuffle(draws, |s|)
    ensures |r| == |s| && multiset(r) == multiset(s)
    decreases |s|
  {
    if |s| <= 1 then s
    else
      var last := |s| - 1;
      var t := Swap(s, last, draws[last]);
      assert t == t[..last] + [t[last]];
      Shuffled(t[..last], draws[..last]) + [t[last]]
  }

  lemma SwapKeepsDistinct(s: seq<int>, i: nat, j: nat)
    requires i < |s| && j < |s| && Distinct(s)
    ensures Distinct(Swap(s, i, j))
  {
    var t := Swap(s, i, j);
    forall a, b | 0 <= a < b < |t|
      ensures t[a] != t[b]
    {
      var a' := if a == i then j else if a == j then i else a;
      var b' := if b == i then j else if b == j then i else b;
      assert t[a] == s[a'] && t[b] == s[b'];
    }
  }

  /** Shuffling a duplicate-free list gives a duplicate-free list. */
  lemma {:induction false} ShuffledKeepsDistinct(s: seq<int>, draws: seq<nat>)
    requires FitsShuffle(draws, |s|) && Distinct(s)
    ensures Distinct(Shuffled(s, draws))
    decreases |s|
  {
    if |s| > 1 {
      var last := |s| - 1;
      var t := Swap(s, last, draws[last]);
      SwapKeepsDistinct(s, last, draws[last]);
      var p := t[..last];
      ShuffledKeepsDistinct(p, draws[..last]);
      var q := Shuffled(p, draws[..last]);
      assert t[last] !in p by {
        assert forall k | 0 <= k < last :: p[k] == t[k];
      }
      assert t[last] !in multiset(q);
      AppendKeepsDistinct(q, t[last]);
      assert Shuffled(s, draws) == q + [t[last]];
    }
  }
}
