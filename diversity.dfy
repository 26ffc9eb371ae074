/** The earlier selection script (select_emails.py): the work/personal split
    of lines 40-41 and `sample_with_diversity` (lines 45-85), which stratifies
    a category by `num_memories`, gives each stratum a share proportional to
    its size, back-fills from the rows not yet drawn and trims to the
    requested size. `DataFrame.sample` is a shuffle over a caller-supplied
    draw stream cut to the requested length; one stream per `random_state`. */
module Diversity {
  import opened Seqs
  import opened Shuffling
  import opened Text

  /** The columns of a metadata row that the sampler reads. */
  datatype Row = Row(threadId: string, numMemories: int, category: string)

  function RowId(r: Row): string { r.threadId }

  /** Lines 40-41: rows whose `personal_or_work` is exactly the given label. */
  function CategoryRows(rows: seq<Row>, name: string): seq<Row>
  {
    Filter(rows, (r: Row) => r.category == name)
  }

  const Work := "work"
  const Personal := "personal"

  /** Only rows labelled exactly "work" or "personal" enter a pool, every
      such row enters its own pool, and no row enters both. */
  lemma CategorySplit(rows: seq<Row>, r: Row)
    ensures r in CategoryRows(rows, Work) <==> r in rows && r.category == "work"
    ensures r in CategoryRows(rows, Personal) <==> r in rows && r.category == "personal"
    ensures !(r in CategoryRows(rows, Work) && r in CategoryRows(rows, Personal))
  {
    FilterMembers(rows, (r: Row) => r.category == Work, r);
    FilterMembers(rows, (r: Row) => r.category == Personal, r);
  }

  // ---------------------------------------------------------------------
  // Strata and shares

  datatype Stratum = Low | Medium | High

  /** Lines 52-56: `pd.cut` with bins 0, 1, 5, infinity, closed on the
      right; a count of 0 or below falls in no bin. */
  function StratumOf(numMemories: int): (r: Option<Stratum>)
    ensures r == Some(Low) <==> 0 < numMemories <= 1
    ensures r == Some(Medium) <==> 1 < numMemories <= 5
    ensures r == Some(High) <==> 5 < numMemories
    ensures r == None <==> numMemories <= 0
  {
    if numMemories <= 0 then None
    else if numMemories <= 1 then Some(Low)
    else if numMemories <= 5 then Some(Medium)
    else Some(High)
  }

  /** Line 62: the strata in the order they are visited. */
  const StrataOrder: seq<Stratum> := [Low, Medium, High]

  /** Line 63. */
  function InStratum(rows: seq<Row>, s: Stratum): seq<Row>
  {
    Filter(rows, (r: Row) => StratumOf(r.numMemories) == Some(s))
  }

  function Max(a: int, b: int): int { if a < b then b else a }
  function Min(a: int, b: int): int { if a < b then a else b }

  /** Lines 67-68: a stratum's share, `n * size / total` truncated, at least
      one row and at most the stratum. The division is floating point in the
      script; while `n * size` is at most 2^53, truncating the correctly
      rounded quotient gives the integer quotient. */
  function Share(n: nat, size: nat, total: nat): (r: nat)
    requires total > 0
  {
    Min(Max(1, n * size / total), size)
  }

  /** A non-empty stratum draws between one row and all of its rows, and
      never more than one row above its proportional share. */
  lemma ShareBounds(n: nat, size: nat, total: nat)
    requires total > 0 && size > 0
    ensures 1 <= Share(n, size, total) <= size
    ensures Share(n, size, total) <= n * size / total + 1
    ensures Share(n, size, total) * total <= n * size + total
  {
    var q := n * size / total;
    assert q * total <= n * size;
    var s := Share(n, size, total);
    if s == q {
      assert s * total == q * total;
    } else {
      assert s <= 1 || s == size;
      if s <= 1 {
        assert s * total <= total;
      } else {
        assert s < q;
        assert s * total <= q * total by {
          MultiplyMonotone(s, q, total);
        }
      }
    }
  }

  lemma MultiplyMonotone(a: nat, b: nat, c: nat)
    requires a <= b
    ensures a * c <= b * c
  {
  }

  /** `DataFrame.sample(n=k)`: `k` distinct rows in random order. */
  function Sample(rows: seq<Row>, k: nat, draws: seq<nat>): (r: seq<Row>)
    requires k <= |rows|
    ensures |r| == k
  {
    Shuffle(rows, draws)[..k]
  }

  /** A sample is drawn from its rows and repeats no thread when they do not. */
  lemma SampleFrom(rows: seq<Row>, k: nat, draws: seq<nat>)
    requires k <= |rows|
    ensures forall x :: x in Sample(rows, k, draws) ==> x in rows
    ensures DistinctKeys(rows, RowId) ==> DistinctKeys(Sample(rows, k, draws), RowId)
  {
    forall x | x in Sample(rows, k, draws)
      ensures x in rows
    {
      ShuffleMembers(rows, draws, x);
    }
    if DistinctKeys(rows, RowId) {
      ShuffleDistinct(rows, draws, RowId);
    }
  }

  // ---------------------------------------------------------------------
  // The sampler as a function

  /** Lines 62-70 for the strata from `strata[0]` on: one sampled frame per
      non-empty stratum, all drawn with `random_state=42`. */
  function Allocation(rows: seq<Row>, n: nat, strata: seq<Stratum>, draws42: seq<nat>): seq<seq<Row>>
    requires |rows| > 0
  {
    if strata == [] then []
    else
      var stratum := InStratum(rows, strata[0]);
      var rest := Allocation(rows, n, strata[1..], draws42);
      if |stratum| == 0 then rest
      else [Sample(stratum, Share(n, |stratum|, |rows|), draws42)] + rest
  }

  /** `pd.concat` of a list of frames. */
  function Concat(frames: seq<seq<Row>>): seq<Row>
  {
    if frames == [] then [] else frames[0] + Concat(frames[1..])
  }

  /** `pd.concat([])` raises "No objects to concatenate". */
  datatype Outcome = Sampled(rows: seq<Row>) | NoObjectsToConcatenate

  /** Lines 75-76: the rows whose thread is not yet in the result. */
  function Unsampled(rows: seq<Row>, result: seq<Row>): seq<Row>
  {
    Filter(rows, (r: Row) => r.threadId !in KeySet(result, RowId))
  }

  /** Lines 74-79: back-fill a short result from the unsampled rows. */
  function Backfill(rows: seq<Row>, result: seq<Row>, n: nat, draws43: seq<nat>): seq<Row>
  {
    if |result| < n then
      var remaining := Unsampled(rows, result);
      var extra := Min(n - |result|, |remaining|);
      if extra > 0 then result + Sample(remaining, extra, draws43) else result
    else result
  }

  /** Lines 82-83: trim a long result to `n` rows. */
  function Trim(result: seq<Row>, n: nat, draws44: seq<nat>): seq<Row>
  {
    if |result| > n then Sample(result, n, draws44) else result
  }

  /** Lines 45-85. */
  function SampleWithDiversity(rows: seq<Row>, n: nat, draws42: seq<nat>, draws43: seq<nat>,
                               draws44: seq<nat>): Outcome
  {
    if |rows| <= n then Sampled(rows)
    else
      var frames := Allocation(rows, n, StrataOrder, draws42);
      if frames == [] then NoObjectsToConcatenate
      else Sampled(Trim(Backfill(rows, Concat(frames), n, draws43), n, draws44))
  }

  // ---------------------------------------------------------------------
  // The sampler as the script runs it

  /** Lines 62-70: the stratum loop appends one sampled frame per
      non-empty stratum to `sampled`. */
  method AllocateStrata(rows: seq<Row>, n: nat, draws42: seq<nat>) returns (sampled: seq<seq<Row>>)
    requires |rows| > 0
    ensures sampled == Allocation(rows, n, StrataOrder, draws42)
  {
    sampled := [];
    for i := 0 to |StrataOrder|
      invariant sampled + Allocation(rows, n, StrataOrder[i..], draws42)
                == Allocation(rows, n, StrataOrder, draws42)
    {
      var stratum := InStratum(rows, StrataOrder[i]);
      AllocationStep(rows, n, StrataOrder, i, draws42);
      if |stratum| != 0 {
        var stratumN := Max(1, n * |stratum| / |rows|);
        stratumN := Min(stratumN, |stratum|);
        assert stratumN == Share(n, |stratum|, |rows|);
        sampled := sampled + [Sample(stratum, stratumN, draws42)];
      }
    }
    assert StrataOrder[|StrataOrder|..] == [];
  }

  /** One turn of the stratum loop: the allocation of the strata from `i`
      on is that of stratum `i` followed by that of the rest. */
  lemma AllocationStep(rows: seq<Row>, n: nat, strata: seq<Stratum>, i: nat, draws42: seq<nat>)
    requires |rows| > 0 && i < |strata|
    ensures var stratum := InStratum(rows, strata[i]);
            Allocation(rows, n, strata[i..], draws42)
            == (if |stratum| == 0 then [] else [Sample(stratum, Share(n, |stratum|, |rows|), draws42)])
               + Allocation(rows, n, strata[i + 1..], draws42)
  {
    assert strata[i..][1..] == strata[i + 1..];
  }

  /** Lines 45-85: the strata are sampled, then `result` is concatenated,
      back-filled and trimmed in turn. */
  method RunSampleWithDiversity(rows: seq<Row>, n: nat, draws42: seq<nat>, draws43: seq<nat>,
                                draws44: seq<nat>) returns (out: Outcome)
    ensures out == SampleWithDiversity(rows, n, draws42, draws43, draws44)
  {
    if |rows| <= n {
      return Sampled(rows);
    }
    var sampled := AllocateStrata(rows, n, draws42);
    if sampled == [] {
      return NoObjectsToConcatenate;
    }
    var result := Concat(sampled);
    ghost var concatenated := result;
    if |result| < n {
      var remaining := Unsampled(rows, result);
      var extraN := Min(n - |result|, |remaining|);
      if extraN > 0 {
        result := result + Sample(remaining, extraN, draws43);
      }
    }
    assert result == Backfill(rows, concatenated, n, draws43);
    if |result| > n {
      result := Sample(result, n, draws44);
    }
    return Sampled(result);
  }

  // ---------------------------------------------------------------------
  // What the sampler guarantees

  /** Every allocated frame is drawn from its own stratum, so the strata's
      frames together come from the category and, when threads are unique,
      repeat none. */
  lemma {:induction false} AllocationFrom(rows: seq<Row>, n: nat, strata: seq<Stratum>, draws42: seq<nat>)
    requires |rows| > 0
    requires forall i, j :: 0 <= i < j < |strata| ==> strata[i] != strata[j]
    ensures forall x :: x in Concat(Allocation(rows, n, strata, draws42)) ==>
              x in rows && StratumOf(x.numMemories) in Labels(strata)
    ensures DistinctKeys(rows, RowId) ==> DistinctKeys(Concat(Allocation(rows, n, strata, draws42)), RowId)
    decreases |strata|
  {
    if strata != [] {
      var s := strata[0];
      var stratum := InStratum(rows, s);
      var rest := Allocation(rows, n, strata[1..], draws42);
      AllocationFrom(rows, n, strata[1..], draws42);
      if |stratum| != 0 {
        var frame := Sample(stratum, Share(n, |stratum|, |rows|), draws42);
        assert Concat(Allocation(rows, n, strata, draws42)) == frame + Concat(rest);
        SampleFrom(stratum, Share(n, |stratum|, |rows|), draws42);
        forall x | x in frame
          ensures x in rows && StratumOf(x.numMemories) == Some(s)
        {
          FilterMembers(rows, (r: Row) => StratumOf(r.numMemories) == Some(s), x);
        }
        if DistinctKeys(rows, RowId) {
          FilterSubsequence(rows, (r: Row) => StratumOf(r.numMemories) == Some(s));
          SubsequenceDistinct(stratum, rows, RowId);
          forall x, y | x in frame && y in Concat(rest)
            ensures RowId(x) != RowId(y)
          {
            assert StratumOf(y.numMemories) in Labels(strata[1..]);
            DifferentRowsDifferentIds(rows, x, y);
          }
          DistinctAppend(frame, Concat(rest), RowId);
        }
      }
    }
  }

  /** The strata a list names, as bucket labels. */
  function Labels(strata: seq<Stratum>): set<Option<Stratum>>
  {
    set s | s in strata :: Some(s)
  }

  /** Two rows of a category with unique threads that differ share no id. */
  lemma DifferentRowsDifferentIds(rows: seq<Row>, x: Row, y: Row)
    requires DistinctKeys(rows, RowId) && x in rows && y in rows && x != y
    ensures RowId(x) != RowId(y)
  {
    var i :| 0 <= i < |rows| && rows[i] == x;
    var j :| 0 <= j < |rows| && rows[j] == y;
    assert i != j;
  }

  /** The allocation is empty exactly when no row has a positive
      `num_memories`, so the script raises exactly then. */
  lemma {:induction false} AllocationEmpty(rows: seq<Row>, n: nat, strata: seq<Stratum>, draws42: seq<nat>)
    requires |rows| > 0
    ensures Allocation(rows, n, strata, draws42) == [] <==>
              forall r :: r in rows ==> StratumOf(r.numMemories) !in Labels(strata)
    decreases |strata|
  {
    if strata != [] {
      AllocationEmpty(rows, n, strata[1..], draws42);
      var s := strata[0];
      var p := (r: Row) => StratumOf(r.numMemories) == Some(s);
      if |InStratum(rows, s)| != 0 {
        var x := InStratum(rows, s)[0];
        FilterMembers(rows, p, x);
      } else {
        forall r | r in rows
          ensures StratumOf(r.numMemories) != Some(s)
        {
          FilterMembers(rows, p, r);
        }
      }
    }
  }

  /** The back-fill keeps the result as a prefix and adds
      `min(n - |result|, |remaining|)` rows from the rows whose thread is
      not yet in the result. */
  lemma BackfillDraws(rows: seq<Row>, result: seq<Row>, n: nat, draws43: seq<nat>)
    requires |result| < n
    ensures var filled := Backfill(rows, result, n, draws43);
            var remaining := Unsampled(rows, result);
            filled[..|result|] == result
            && |filled| == |result| + Min(n - |result|, |remaining|)
            && forall x :: x in filled[|result|..] ==> x in rows && x.threadId !in KeySet(result, RowId)
  {
    var remaining := Unsampled(rows, result);
    var extra := Min(n - |result|, |remaining|);
    var filled := Backfill(rows, result, n, draws43);
    if extra > 0 {
      assert filled[|result|..] == Sample(remaining, extra, draws43);
      SampleFrom(remaining, extra, draws43);
      forall x | x in filled[|result|..]
        ensures x in rows && x.threadId !in KeySet(result, RowId)
      {
        FilterMembers(rows, (r: Row) => r.threadId !in KeySet(result, RowId), x);
      }
    }
  }

  /** The trim leaves at most `n` rows, exactly `n` when it acts, all drawn
      from the untrimmed result and repeating no thread it did not repeat. */
  lemma TrimToSize(result: seq<Row>, n: nat, draws44: seq<nat>)
    ensures var out := Trim(result, n, draws44);
            |out| == (if |result| > n then n else |result|)
            && (forall x :: x in out ==> x in result)
            && (DistinctKeys(result, RowId) ==> DistinctKeys(out, RowId))
  {
    if |result| > n {
      SampleFrom(result, n, draws44);
    }
  }

  /** When the category has more than `n` rows with unique threads and at
      least one row has a positive `num_memories`, the sampler returns
      exactly `n` rows, all from the category and no thread twice. */
  lemma ExactSize(rows: seq<Row>, n: nat, draws42: seq<nat>, draws43: seq<nat>, draws44: seq<nat>)
    requires |rows| > n && DistinctKeys(rows, RowId)
    requires exists r :: r in rows && r.numMemories > 0
    ensures SampleWithDiversity(rows, n, draws42, draws43, draws44).Sampled?
    ensures var out := SampleWithDiversity(rows, n, draws42, draws43, draws44).rows;
            |out| == n && DistinctKeys(out, RowId) && forall x :: x in out ==> x in rows
  {
    var frames := Allocation(rows, n, StrataOrder, draws42);
    var r :| r in rows && r.numMemories > 0;
    assert StratumOf(r.numMemories) in Labels(StrataOrder);
    AllocationEmpty(rows, n, StrataOrder, draws42);
    assert frames != [];
    var result := Concat(frames);
    AllocationFrom(rows, n, StrataOrder, draws42);
    var filled := Backfill(rows, result, n, draws43);
    FilledFacts(rows, result, n, draws43);
    var out := Trim(filled, n, draws44);
    if |filled| > n {
      SampleFrom(filled, n, draws44);
    }
    assert out == SampleWithDiversity(rows, n, draws42, draws43, draws44).rows;
  }

  /** After the back-fill a result drawn from a larger category with unique
      threads has at least `n` rows, all from the category, no thread twice. */
  lemma FilledFacts(rows: seq<Row>, result: seq<Row>, n: nat, draws43: seq<nat>)
    requires |rows| > n && DistinctKeys(rows, RowId) && DistinctKeys(result, RowId)
    requires forall x :: x in result ==> x in rows
    ensures var filled := Backfill(rows, result, n, draws43);
            |filled| >= n && DistinctKeys(filled, RowId) && forall x :: x in filled ==> x in rows
  {
    var filled := Backfill(rows, result, n, draws43);
    if |result| < n {
      var ids := KeySet(result, RowId);
      var remaining := Unsampled(rows, result);
      KeysOutside(rows, RowId, ids, (r: Row) => r.threadId in ids, (r: Row) => r.threadId !in ids);
      KeySetSize(result, RowId);
      assert |remaining| >= |rows| - |result|;
      var extra := n - |result|;
      assert filled == result + Sample(remaining, extra, draws43);
      SampleFrom(remaining, extra, draws43);
      FilterSubsequence(rows, (r: Row) => r.threadId !in ids);
      SubsequenceDistinct(remaining, rows, RowId);
      var added := Sample(remaining, extra, draws43);
      forall x | x in added
        ensures x in rows && x.threadId !in ids
      {
        FilterMembers(rows, (r: Row) => r.threadId !in ids, x);
      }
      forall x, y | x in result && y in added
        ensures RowId(x) != RowId(y)
      {
        assert RowId(x) in ids;
      }
      DistinctAppend(result, added, RowId);
    }
  }

  /** A category with no more than `n` rows comes back unchanged; a larger
      one whose every row has `num_memories` of 0 or below makes the
      concatenation fail. */
  lemma SmallOrUnbucketed(rows: seq<Row>, n: nat, draws42: seq<nat>, draws43: seq<nat>, draws44: seq<nat>)
    ensures |rows| <= n ==> SampleWithDiversity(rows, n, draws42, draws43, draws44) == Sampled(rows)
    ensures |rows| > n && (forall r :: r in rows ==> r.numMemories <= 0) ==>
              SampleWithDiversity(rows, n, draws42, draws43, draws44) == NoObjectsToConcatenate
  {
    if |rows| > n {
      AllocationEmpty(rows, n, StrataOrder, draws42);
    }
  }
}
