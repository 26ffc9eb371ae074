/** `random.shuffle`, with the random numbers supplied by the caller.

    The library shuffle walks `i` from the last index down to 1 and swaps
    entry `i` with entry `j`, where `j` is a random number below `i + 1`.
    Here the `k`-th such number is `draws[k] % (i + 1)` (0 once the draws
    run out), so every stream of draws gives one shuffle and every shuffle
    is given by some stream; the generator itself is not modelled. */
module Shuffling {
  import opened Seqs

  function Swap<T>(xs: seq<T>, i: nat, j: nat): (r: seq<T>)
    requires i < |xs| && j < |xs|
    ensures |r| == |xs|
  {
    xs[i := xs[j]][j := xs[i]]
  }

  function Draw(draws: seq<nat>, k: nat): nat
  {
    if k < |draws| then draws[k] else 0
  }

  /** The steps for indices `i` down to 1; `k` draws are already used. */
  function ShuffleDown<T>(xs: seq<T>, draws: seq<nat>, i: nat, k: nat): (r: seq<T>)
    requires i < |xs|
    ensures |r| == |xs|
    decreases i
  {
    if i == 0 then xs
    else ShuffleDown(Swap(xs, i, Draw(draws, k) % (i + 1)), draws, i - 1, k + 1)
  }

  function Shuffle<T>(xs: seq<T>, draws: seq<nat>): (r: seq<T>)
    ensures |r| == |xs|
  {
    if xs == [] then [] else ShuffleDown(xs, draws, |xs| - 1, 0)
  }

  lemma SwapPermutes<T>(xs: seq<T>, i: nat, j: nat)
    requires i < |xs| && j < |xs|
    ensures multiset(Swap(xs, i, j)) == multiset(xs)
  {
    var ys := xs[i := xs[j]];
    assert multiset(ys) == multiset(xs) - multiset{xs[i]} + multiset{xs[j]};
    assert multiset(ys[j := xs[i]]) == multiset(ys) - multiset{ys[j]} + multiset{xs[i]};
  }

  lemma SwapKeepsDistinct<T, K>(xs: seq<T>, i: nat, j: nat, key: T -> K)
    requires i < |xs| && j < |xs| && DistinctKeys(xs, key)
    ensures DistinctKeys(Swap(xs, i, j), key)
  {
    var ys := Swap(xs, i, j);
    forall a, b | 0 <= a < b < |ys|
      ensures key(ys[a]) != key(ys[b])
    {
      var a' := if a == i then j else if a == j then i else a;
      var b' := if b == i then j else if b == j then i else b;
      assert ys[a] == xs[a'] && ys[b] == xs[b'] && a' != b';
      if a' > b' {
        assert key(xs[b']) != key(xs[a']);
      }
    }
  }

  /** A shuffle only reorders. */
  lemma {:induction false} ShuffleDownPermutes<T>(xs: seq<T>, draws: seq<nat>, i: nat, k: nat)
    requires i < |xs|
    ensures multiset(ShuffleDown(xs, draws, i, k)) == multiset(xs)
    decreases i
  {
    if i > 0 {
      var j := Draw(draws, k) % (i + 1);
      SwapPermutes(xs, i, j);
      ShuffleDownPermutes(Swap(xs, i, j), draws, i - 1, k + 1);
    }
  }

  lemma ShufflePermutes<T>(xs: seq<T>, draws: seq<nat>)
    ensures multiset(Shuffle(xs, draws)) == multiset(xs)
  {
    if xs != [] {
      ShuffleDownPermutes(xs, draws, |xs| - 1, 0);
    }
  }

  /** Shuffling a list with distinct keys keeps them distinct. */
  lemma {:induction false} ShuffleDownDistinct<T, K>(xs: seq<T>, draws: seq<nat>, i: nat, k: nat, key: T -> K)
    requires i < |xs| && DistinctKeys(xs, key)
    ensures DistinctKeys(ShuffleDown(xs, draws, i, k), key)
    decreases i
  {
    if i > 0 {
      var j := Draw(draws, k) % (i + 1);
      SwapKeepsDistinct(xs, i, j, key);
      ShuffleDownDistinct(Swap(xs, i, j), draws, i - 1, k + 1, key);
    }
  }

  lemma ShuffleDistinct<T, K>(xs: seq<T>, draws: seq<nat>, key: T -> K)
    requires DistinctKeys(xs, key)
    ensures DistinctKeys(Shuffle(xs, draws), key)
  {
    if xs != [] {
      ShuffleDownDistinct(xs, draws, |xs| - 1, 0, key);
    }
  }

  /** The shuffle holds the same entries as its input. */
  lemma ShuffleMembers<T>(xs: seq<T>, draws: seq<nat>, x: T)
    ensures x in Shuffle(xs, draws) <==> x in xs
  {
    ShufflePermutes(xs, draws);
    assert x in Shuffle(xs, draws) <==> x in multiset(Shuffle(xs, draws));
  }
}
