/** List operations shared by the selection scripts: filtering (a list
    comprehension with a condition), order-preserving subsequences, and
    lists whose entries carry pairwise different keys (thread ids). */
module Seqs {

  /** `[x for x in xs if p(x)]`. */
  function Filter<T>(xs: seq<T>, p: T -> bool): (r: seq<T>)
    ensures |r| <= |xs|
  {
    if xs == [] then []
    else (if p(xs[0]) then [xs[0]] else []) + Filter(xs[1..], p)
  }

  /** The comprehension keeps exactly the entries passing the test. */
  lemma {:induction false} FilterMembers<T>(xs: seq<T>, p: T -> bool, x: T)
    ensures x in Filter(xs, p) <==> x in xs && p(x)
    decreases |xs|
  {
    if xs != [] {
      FilterMembers(xs[1..], p, x);
      assert xs == [xs[0]] + xs[1..];
    }
  }

  /** `xs` occurs in `ys` in the same order, possibly with gaps. */
  predicate IsSubsequence<T(==)>(xs: seq<T>, ys: seq<T>)
    decreases |ys|
  {
    if xs == [] then true
    else if ys == [] then false
    else if xs[0] == ys[0] then IsSubsequence(xs[1..], ys[1..])
    else IsSubsequence(xs, ys[1..])
  }

  lemma {:induction false} SubsequenceMembers<T>(xs: seq<T>, ys: seq<T>, x: T)
    requires IsSubsequence(xs, ys) && x in xs
    ensures x in ys
    decreases |ys|
  {
    if xs[0] == ys[0] {
      if x != xs[0] {
        assert x in xs[1..];
        SubsequenceMembers(xs[1..], ys[1..], x);
      }
    } else {
      SubsequenceMembers(xs, ys[1..], x);
    }
  }

  lemma {:induction false} SubsequenceLength<T>(xs: seq<T>, ys: seq<T>)
    requires IsSubsequence(xs, ys)
    ensures |xs| <= |ys|
    decreases |ys|
  {
    if xs != [] {
      if xs[0] == ys[0] {
        SubsequenceLength(xs[1..], ys[1..]);
      } else {
        SubsequenceLength(xs, ys[1..]);
      }
    }
  }

  /** A filter keeps the order of what it keeps. */
  lemma {:induction false} FilterSubsequence<T>(xs: seq<T>, p: T -> bool)
    ensures IsSubsequence(Filter(xs, p), xs)
    decreases |xs|
  {
    if xs != [] {
      FilterSubsequence(xs[1..], p);
      if p(xs[0]) {
        assert Filter(xs, p)[0] == xs[0] && Filter(xs, p)[1..] == Filter(xs[1..], p);
      } else {
        assert Filter(xs, p) == Filter(xs[1..], p);
        SubsequenceSkip(Filter(xs[1..], p), xs);
      }
    }
  }

  /** Dropping the head of `ys` is harmless when `xs` already fits in the
      rest. */
  lemma {:induction false} SubsequenceSkip<T>(xs: seq<T>, ys: seq<T>)
    requires ys != [] && IsSubsequence(xs, ys[1..])
    ensures IsSubsequence(xs, ys)
    decreases |ys|, 0
  {
    if xs != [] && xs[0] == ys[0] {
      SubsequenceTail(xs, ys[1..]);
    }
  }

  /** Dropping the head of `xs` keeps it a subsequence. */
  lemma {:induction false} SubsequenceTail<T>(xs: seq<T>, ys: seq<T>)
    requires xs != [] && IsSubsequence(xs, ys)
    ensures IsSubsequence(xs[1..], ys)
    decreases |ys|, 1
  {
    if xs[0] != ys[0] {
      SubsequenceTail(xs, ys[1..]);
    }
    SubsequenceSkip(xs[1..], ys);
  }

  lemma {:induction false} SubsequenceTrans<T>(xs: seq<T>, ys: seq<T>, zs: seq<T>)
    requires IsSubsequence(xs, ys) && IsSubsequence(ys, zs)
    ensures IsSubsequence(xs, zs)
    decreases |zs|
  {
    if xs != [] {
      if ys[0] == zs[0] {
        if xs[0] == ys[0] {
          SubsequenceTrans(xs[1..], ys[1..], zs[1..]);
        } else {
          SubsequenceTrans(xs, ys[1..], zs[1..]);
          SubsequenceSkip(xs, zs);
        }
      } else {
        SubsequenceTrans(xs, ys, zs[1..]);
        SubsequenceSkip(xs, zs);
      }
    }
  }

  /** No two entries of `xs` share a key. */
  predicate DistinctKeys<T, K(==)>(xs: seq<T>, key: T -> K)
  {
    forall i, j :: 0 <= i < j < |xs| ==> key(xs[i]) != key(xs[j])
  }

  lemma DistinctKeysCons<T, K>(xs: seq<T>, key: T -> K)
    requires xs != []
    ensures DistinctKeys(xs, key)
        <==> DistinctKeys(xs[1..], key) && forall y :: y in xs[1..] ==> key(y) != key(xs[0])
  {
    if DistinctKeys(xs[1..], key) && forall y :: y in xs[1..] ==> key(y) != key(xs[0]) {
      forall i, j | 0 <= i < j < |xs|
        ensures key(xs[i]) != key(xs[j])
      {
        if i == 0 {
          assert xs[j] == xs[1..][j - 1];
        } else {
          assert xs[i] == xs[1..][i - 1] && xs[j] == xs[1..][j - 1];
        }
      }
    }
    if DistinctKeys(xs, key) {
      forall y | y in xs[1..]
        ensures key(y) != key(xs[0])
      {
        var j :| 0 <= j < |xs[1..]| && xs[1..][j] == y;
        assert xs[j + 1] == y;
      }
    }
  }

  /** An order-preserving selection from a list with distinct keys has
      distinct keys. */
  lemma {:induction false} SubsequenceDistinct<T, K>(xs: seq<T>, ys: seq<T>, key: T -> K)
    requires IsSubsequence(xs, ys) && DistinctKeys(ys, key)
    ensures DistinctKeys(xs, key)
    decreases |ys|
  {
    if xs != [] {
      DistinctKeysCons(ys, key);
      if xs[0] == ys[0] {
        SubsequenceDistinct(xs[1..], ys[1..], key);
        forall y | y in xs[1..]
          ensures key(y) != key(xs[0])
        {
          SubsequenceMembers(xs[1..], ys[1..], y);
        }
        DistinctKeysCons(xs, key);
      } else {
        SubsequenceDistinct(xs, ys[1..], key);
      }
    }
  }

  /** Keys of two lists that share none, concatenated, stay distinct. */
  lemma DistinctAppend<T, K>(xs: seq<T>, ys: seq<T>, key: T -> K)
    requires DistinctKeys(xs, key) && DistinctKeys(ys, key)
    requires forall x, y :: x in xs && y in ys ==> key(x) != key(y)
    ensures DistinctKeys(xs + ys, key)
  {
    var zs := xs + ys;
    forall i, j | 0 <= i < j < |zs|
      ensures key(zs[i]) != key(zs[j])
    {
      if j < |xs| {
        assert zs[i] == xs[i] && zs[j] == xs[j];
      } else if i >= |xs| {
        assert zs[i] == ys[i - |xs|] && zs[j] == ys[j - |xs|];
      } else {
        assert zs[i] == xs[i] && zs[j] == ys[j - |xs|];
      }
    }
  }

  /** `[k for x in xs]` with `k = key(x)`. */
  function Keys<T, K>(xs: seq<T>, key: T -> K): (r: seq<K>)
    ensures |r| == |xs|
  {
    seq(|xs|, i requires 0 <= i < |xs| => key(xs[i]))
  }

  /** `set(key(x) for x in xs)`. */
  function KeySet<T(==), K>(xs: seq<T>, key: T -> K): set<K>
  {
    set x | x in xs :: key(x)
  }

  lemma {:induction false} KeySetSize<T, K>(xs: seq<T>, key: T -> K)
    ensures |KeySet(xs, key)| <= |xs|
    ensures DistinctKeys(xs, key) ==> |KeySet(xs, key)| == |xs|
    decreases |xs|
  {
    if xs != [] {
      KeySetSize(xs[1..], key);
      assert KeySet(xs, key) == {key(xs[0])} + KeySet(xs[1..], key) by {
        assert xs == [xs[0]] + xs[1..];
      }
      if DistinctKeys(xs, key) {
        DistinctKeysCons(xs, key);
        assert key(xs[0]) !in KeySet(xs[1..], key);
      }
    }
  }

  lemma {:induction false} SubsetSize<K>(a: set<K>, b: set<K>)
    requires a <= b
    ensures |a| <= |b|
    decreases |b|
  {
    if a != {} {
      var x :| x in a;
      SubsetSize(a - {x}, b - {x});
    }
  }

  /** A condition and its negation split a list between them. */
  lemma {:induction false} FilterPartition<T>(xs: seq<T>, p: T -> bool, q: T -> bool)
    requires forall x :: q(x) == !p(x)
    ensures |Filter(xs, p)| + |Filter(xs, q)| == |xs|
    decreases |xs|
  {
    if xs != [] {
      FilterPartition(xs[1..], p, q);
    }
  }

  /** A list with distinct keys has at least `|xs| - |S|` entries whose key
      is outside a key set `S`. */
  lemma KeysOutside<T, K>(xs: seq<T>, key: T -> K, s: set<K>, p: T -> bool, q: T -> bool)
    requires DistinctKeys(xs, key)
    requires forall x :: p(x) == (key(x) in s) && q(x) == (key(x) !in s)
    ensures |Filter(xs, q)| >= |xs| - |s|
  {
    var inside := Filter(xs, p);
    FilterPartition(xs, p, q);
    FilterSubsequence(xs, p);
    SubsequenceDistinct(inside, xs, key);
    KeySetSize(inside, key);
    forall k | k in KeySet(inside, key)
      ensures k in s
    {
      var x :| x in inside && key(x) == k;
      FilterMembers(xs, p, x);
    }
    SubsetSize(KeySet(inside, key), s);
  }
  /** Filtering a concatenation filters each part. */
  lemma {:induction false} FilterAppend<T>(xs: seq<T>, ys: seq<T>, p: T -> bool)
    ensures Filter(xs + ys, p) == Filter(xs, p) + Filter(ys, p)
    decreases |xs|
  {
    if xs == [] {
      assert xs + ys == ys;
    } else {
      var head := if p(xs[0]) then [xs[0]] else [];
      calc {
        Filter(xs + ys, p);
      ==  { assert (xs + ys)[0] == xs[0] && (xs + ys)[1..] == xs[1..] + ys; }
        head + Filter(xs[1..] + ys, p);
      ==  { FilterAppend(xs[1..], ys, p); }
        head + (Filter(xs[1..], p) + Filter(ys, p));
      ==
        (head + Filter(xs[1..], p)) + Filter(ys, p);
      }
    }
  }

  /** Two filters one after the other are one filter by both conditions. */
  lemma {:induction false} FilterFilter<T>(xs: seq<T>, p: T -> bool, q: T -> bool, both: T -> bool)
    requires forall x :: both(x) == (p(x) && q(x))
    ensures Filter(Filter(xs, p), q) == Filter(xs, both)
    decreases |xs|
  {
    if xs != [] {
      FilterFilter(xs[1..], p, q, both);
      var head := if p(xs[0]) then [xs[0]] else [];
      FilterAppend(head, Filter(xs[1..], p), q);
      if p(xs[0]) {
        assert Filter(head, q) == (if q(xs[0]) then [xs[0]] else []) + Filter([], q);
      }
    }
  }

  /** A condition every entry passes keeps the whole list. */
  lemma {:induction false} FilterAll<T>(xs: seq<T>, p: T -> bool)
    requires forall k :: 0 <= k < |xs| ==> p(xs[k])
    ensures Filter(xs, p) == xs
    decreases |xs|
  {
    if xs != [] {
      FilterAll(xs[1..], p);
    }
  }
  function Last<T>(xs: seq<T>): T
    requires xs != []
  {
    xs[|xs| - 1]
  }

  /** When the last entry passes, it is also the last entry kept. */
  lemma FilterLastKept<T>(xs: seq<T>, p: T -> bool)
    requires xs != [] && p(Last(xs))
    ensures Filter(xs, p) != [] && Last(Filter(xs, p)) == Last(xs)
  {
    var init := xs[..|xs| - 1];
    assert xs == init + [Last(xs)];
    FilterAppend(init, [Last(xs)], p);
    assert Filter([Last(xs)], p) == [Last(xs)] + Filter([], p);
  }
  lemma ConsAppend<T>(x: T, ys: seq<T>, zs: seq<T>)
    ensures [x] + (ys + zs) == ([x] + ys) + zs
  {
  }
}
