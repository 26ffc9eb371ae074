/** `select_emails_with_global_cap` and the selection wiring of `main`
    (email_selector_ui/select_350_emails.py:122-212): per message-count
    bucket a capped greedy sample, the shortfall summed over buckets and,
    when there is one, a backfill from the 1-msg e-mails not yet chosen;
    work first, then personal, with one counter shared by both. */
module Selection {
  import opened Seqs
  import opened Shuffling
  import opened Mailbox
  import opened SenderCap

  /** Lines 16-20 and 22-26, in the dictionaries' order. */
  const WorkTargets: seq<(Bucket, nat)> := [(OneMsg, 100), (TwoMsg, 60), (ThreePlusMsg, 40)]
  const PersonalTargets: seq<(Bucket, nat)> := [(OneMsg, 75), (TwoMsg, 45), (ThreePlusMsg, 30)]

  function SumTargets(targets: seq<(Bucket, nat)>): nat
  {
    if targets == [] then 0 else targets[0].1 + SumTargets(targets[1..])
  }

  function BucketKey(t: (Bucket, nat)): Bucket { t.0 }

  /** The random numbers for the `k`-th shuffle of a category: one per
      bucket, then one for the backfill. */
  function Stream(streams: seq<seq<nat>>, k: nat): seq<nat>
  {
    if k < |streams| then streams[k] else []
  }

  /** Line 133. */
  function InBucket(emails: seq<Email>, b: Bucket): seq<Email>
  {
    Filter(emails, (e: Email) => MessageBucket(e) == b)
  }

  /** Line 149. */
  function SelectedIds(xs: seq<Email>): set<string>
  {
    set e | e in xs :: e.threadId
  }

  /** Lines 150-152. */
  function Remaining(emails: seq<Email>, ids: set<string>): seq<Email>
  {
    Filter(emails, (e: Email) => MessageBucket(e) == OneMsg && e.threadId !in ids)
  }

  /** The bucket loop's outcome: what it selected, the summed shortfall and
      the counter. */
  datatype Pass = Pass(selected: seq<Email>, shortfall: nat, counts: map<string, nat>)

  /** Lines 131-143 for the targets from the `k`-th on. */
  function BucketPass(key: Email -> string, emails: seq<Email>, targets: seq<(Bucket, nat)>, streams: seq<seq<nat>>, k: nat,
                      counts: map<string, nat>): Pass
    decreases |targets|
  {
    if targets == [] then Pass([], 0, counts)
    else
      var (bucket, target) := targets[0];
      var sampled := Greedy(key, Shuffle(InBucket(emails, bucket), Stream(streams, k)), target, MaxPerSender, counts);
      var rest := BucketPass(key, emails, targets[1..], streams, k + 1, sampled.counts);
      Pass(sampled.selected + rest.selected, (target - |sampled.selected|) + rest.shortfall, rest.counts)
  }

  /** Lines 128-159. */
  function CategoryPick(key: Email -> string, emails: seq<Email>, targets: seq<(Bucket, nat)>, streams: seq<seq<nat>>,
                        counts: map<string, nat>): Pick
  {
    var pass := BucketPass(key, emails, targets, streams, 0, counts);
    if pass.shortfall > 0 then
      var remaining := Remaining(emails, SelectedIds(pass.selected));
      var additional := Greedy(key, Shuffle(remaining, Stream(streams, |targets|)), pass.shortfall, MaxPerSender, pass.counts);
      Pick(pass.selected + additional.selected, additional.counts)
    else Pick(pass.selected, pass.counts)
  }

  // ---------------------------------------------------------------------
  // What one capped sample draws from

  /** A sample holds only e-mails of its pool, and no thread twice when the
      pool has none twice. */
  lemma SampleFrom(key: Email -> string, pool: seq<Email>, draws: seq<nat>, room: nat, counts: map<string, nat>)
    ensures var r := Greedy(key, Shuffle(pool, draws), room, MaxPerSender, counts);
            (forall e :: e in r.selected ==> e in pool)
            && (DistinctKeys(pool, ThreadId) ==> DistinctKeys(r.selected, ThreadId))
  {
    var shuffled := Shuffle(pool, draws);
    var r := Greedy(key, shuffled, room, MaxPerSender, counts);
    GreedySubsequence(key, shuffled, room, MaxPerSender, counts);
    forall e | e in r.selected
      ensures e in pool
    {
      SubsequenceMembers(r.selected, shuffled, e);
      ShuffleMembers(pool, draws, e);
    }
    if DistinctKeys(pool, ThreadId) {
      ShuffleDistinct(pool, draws, ThreadId);
      SubsequenceDistinct(r.selected, shuffled, ThreadId);
    }
  }

  lemma FilterDistinct(xs: seq<Email>, p: Email -> bool)
    requires DistinctKeys(xs, ThreadId)
    ensures DistinctKeys(Filter(xs, p), ThreadId)
  {
    FilterSubsequence(xs, p);
    SubsequenceDistinct(Filter(xs, p), xs, ThreadId);
  }

  /** With distinct thread ids, two different e-mails have different ids. */
  lemma DifferentEmailsDifferentIds(xs: seq<Email>, x: Email, y: Email)
    requires DistinctKeys(xs, ThreadId) && x in xs && y in xs && x != y
    ensures x.threadId != y.threadId
  {
    var i :| 0 <= i < |xs| && xs[i] == x;
    var j :| 0 <= j < |xs| && xs[j] == y;
  }

  // ---------------------------------------------------------------------
  // Properties of the bucket loop

  /** Each bucket contributes its selection plus its shortfall, which
      together make its target. */
  lemma {:induction false} BucketPassSize(key: Email -> string, emails: seq<Email>, targets: seq<(Bucket, nat)>, streams: seq<seq<nat>>,
                                          k: nat, counts: map<string, nat>)
    ensures var p := BucketPass(key, emails, targets, streams, k, counts);
            |p.selected| + p.shortfall == SumTargets(targets)
    decreases |targets|
  {
    if targets != [] {
      var (bucket, target) := targets[0];
      var sampled := Greedy(key, Shuffle(InBucket(emails, bucket), Stream(streams, k)), target, MaxPerSender, counts);
      BucketPassSize(key, emails, targets[1..], streams, k + 1, sampled.counts);
    }
  }

  /** The bucket loop picks only e-mails of the category whose bucket has a
      target. */
  lemma {:induction false} BucketPassMembers(key: Email -> string, emails: seq<Email>, targets: seq<(Bucket, nat)>, streams: seq<seq<nat>>,
                                             k: nat, counts: map<string, nat>, e: Email)
    requires e in BucketPass(key, emails, targets, streams, k, counts).selected
    ensures e in emails && exists j :: 0 <= j < |targets| && targets[j].0 == MessageBucket(e)
    decreases |targets|
  {
    var (bucket, target) := targets[0];
    var pool := InBucket(emails, bucket);
    var sampled := Greedy(key, Shuffle(pool, Stream(streams, k)), target, MaxPerSender, counts);
    var rest := BucketPass(key, emails, targets[1..], streams, k + 1, sampled.counts);
    if e in sampled.selected {
      SampleFrom(key, pool, Stream(streams, k), target, counts);
      FilterMembers(emails, (e: Email) => MessageBucket(e) == bucket, e);
      assert targets[0].0 == MessageBucket(e);
    } else {
      BucketPassMembers(key, emails, targets[1..], streams, k + 1, sampled.counts, e);
      var j :| 0 <= j < |targets[1..]| && targets[1..][j].0 == MessageBucket(e);
      assert targets[j + 1] == targets[1..][j];
    }
  }

  /** When thread ids are unique and no bucket is listed twice, the bucket
      loop picks no thread twice. */
  lemma {:induction false} BucketPassDistinct(key: Email -> string, emails: seq<Email>, targets: seq<(Bucket, nat)>, streams: seq<seq<nat>>,
                                              k: nat, counts: map<string, nat>)
    requires DistinctKeys(emails, ThreadId) && DistinctKeys(targets, BucketKey)
    ensures DistinctKeys(BucketPass(key, emails, targets, streams, k, counts).selected, ThreadId)
    decreases |targets|
  {
    if targets != [] {
      var (bucket, target) := targets[0];
      var pool := InBucket(emails, bucket);
      var sampled := Greedy(key, Shuffle(pool, Stream(streams, k)), target, MaxPerSender, counts);
      var rest := BucketPass(key, emails, targets[1..], streams, k + 1, sampled.counts);
      assert BucketPass(key, emails, targets, streams, k, counts).selected == sampled.selected + rest.selected;
      assert DistinctKeys(targets[1..], BucketKey) by {
        DistinctKeysCons(targets, BucketKey);
      }
      BucketPassDistinct(key, emails, targets[1..], streams, k + 1, sampled.counts);
      FilterDistinct(emails, (e: Email) => MessageBucket(e) == bucket);
      SampleFrom(key, pool, Stream(streams, k), target, counts);
      forall x | x in sampled.selected
        ensures x in emails && MessageBucket(x) == bucket
      {
        FilterMembers(emails, (e: Email) => MessageBucket(e) == bucket, x);
      }
      forall y | y in rest.selected
        ensures y in emails && MessageBucket(y) != bucket
      {
        BucketPassMembers(key, emails, targets[1..], streams, k + 1, sampled.counts, y);
        var j :| 0 <= j < |targets[1..]| && targets[1..][j].0 == MessageBucket(y);
        assert targets[j + 1] == targets[1..][j];
        assert BucketKey(targets[0]) != BucketKey(targets[j + 1]);
      }
      forall x, y | x in sampled.selected && y in rest.selected
        ensures ThreadId(x) != ThreadId(y)
      {
        DifferentEmailsDifferentIds(emails, x, y);
      }
      DistinctAppend(sampled.selected, rest.selected, ThreadId);
    }
  }

  /** Acceptances in the bucket loop are counted exactly, and a sender at or
      below the cap stays so. */
  lemma {:induction false} BucketPassAccounting(key: Email -> string, emails: seq<Email>, targets: seq<(Bucket, nat)>, streams: seq<seq<nat>>,
                                                k: nat, counts: map<string, nat>, sender: string)
    ensures var p := BucketPass(key, emails, targets, streams, k, counts);
            Get(p.counts, sender) == Get(counts, sender) + Tally(key, p.selected, sender)
            && (Get(counts, sender) <= MaxPerSender ==> Get(p.counts, sender) <= MaxPerSender)
    decreases |targets|
  {
    if targets != [] {
      var (bucket, target) := targets[0];
      var shuffled := Shuffle(InBucket(emails, bucket), Stream(streams, k));
      var sampled := Greedy(key, shuffled, target, MaxPerSender, counts);
      var rest := BucketPass(key, emails, targets[1..], streams, k + 1, sampled.counts);
      GreedyAccounting(key, shuffled, target, MaxPerSender, counts, sender);
      if Get(counts, sender) <= MaxPerSender {
        GreedyCap(key, shuffled, target, MaxPerSender, counts, sender);
      }
      BucketPassAccounting(key, emails, targets[1..], streams, k + 1, sampled.counts, sender);
      TallyAppend(key, sampled.selected, rest.selected, sender);
    }
  }

  // ---------------------------------------------------------------------
  // Properties of one category

  /** A category never gets more than the sum of its targets. */
  lemma CategorySize(key: Email -> string, emails: seq<Email>, targets: seq<(Bucket, nat)>, streams: seq<seq<nat>>, counts: map<string, nat>)
    ensures |CategoryPick(key, emails, targets, streams, counts).selected| <= SumTargets(targets)
  {
    BucketPassSize(key, emails, targets, streams, 0, counts);
  }

  /** The backfill runs only on a shortfall, takes at most the shortfall,
      and takes only 1-msg e-mails of the category whose thread is not
      already selected; the bucket loop's picks come first. */
  lemma Backfill(key: Email -> string, emails: seq<Email>, targets: seq<(Bucket, nat)>, streams: seq<seq<nat>>, counts: map<string, nat>)
    ensures var pass := BucketPass(key, emails, targets, streams, 0, counts);
            var r := CategoryPick(key, emails, targets, streams, counts);
            var extra := r.selected[|pass.selected|..];
            pass.selected <= r.selected
            && |extra| <= pass.shortfall
            && (forall e :: e in extra ==> e in emails && MessageBucket(e) == OneMsg
                                           && e.threadId !in SelectedIds(pass.selected))
  {
    var pass := BucketPass(key, emails, targets, streams, 0, counts);
    var r := CategoryPick(key, emails, targets, streams, counts);
    if pass.shortfall > 0 {
      var ids := SelectedIds(pass.selected);
      var remaining := Remaining(emails, ids);
      var additional := Greedy(key, Shuffle(remaining, Stream(streams, |targets|)), pass.shortfall, MaxPerSender, pass.counts);
      assert r.selected[|pass.selected|..] == additional.selected;
      SampleFrom(key, remaining, Stream(streams, |targets|), pass.shortfall, pass.counts);
      forall e | e in additional.selected
        ensures e in emails && MessageBucket(e) == OneMsg && e.threadId !in ids
      {
        FilterMembers(emails, (e: Email) => MessageBucket(e) == OneMsg && e.threadId !in ids, e);
      }
    } else {
      assert r.selected[|pass.selected|..] == [];
    }
  }

  /** With unique thread ids in the category and no bucket listed twice, a
      category's selection has no thread twice. */
  lemma CategoryDistinct(key: Email -> string, emails: seq<Email>, targets: seq<(Bucket, nat)>, streams: seq<seq<nat>>, counts: map<string, nat>)
    requires DistinctKeys(emails, ThreadId) && DistinctKeys(targets, BucketKey)
    ensures DistinctKeys(CategoryPick(key, emails, targets, streams, counts).selected, ThreadId)
  {
    var pass := BucketPass(key, emails, targets, streams, 0, counts);
    BucketPassDistinct(key, emails, targets, streams, 0, counts);
    if pass.shortfall > 0 {
      var ids := SelectedIds(pass.selected);
      var remaining := Remaining(emails, ids);
      var additional := Greedy(key, Shuffle(remaining, Stream(streams, |targets|)), pass.shortfall, MaxPerSender, pass.counts);
      FilterDistinct(emails, (e: Email) => MessageBucket(e) == OneMsg && e.threadId !in ids);
      SampleFrom(key, remaining, Stream(streams, |targets|), pass.shortfall, pass.counts);
      forall x, y | x in pass.selected && y in additional.selected
        ensures ThreadId(x) != ThreadId(y)
      {
        FilterMembers(emails, (e: Email) => MessageBucket(e) == OneMsg && e.threadId !in ids, y);
        assert x.threadId in ids;
      }
      DistinctAppend(pass.selected, additional.selected, ThreadId);
    }
  }

  /** The category's acceptances are counted exactly, and a sender at or
      below the cap stays so. */
  lemma CategoryAccounting(key: Email -> string, emails: seq<Email>, targets: seq<(Bucket, nat)>, streams: seq<seq<nat>>,
                           counts: map<string, nat>, sender: string)
    ensures var r := CategoryPick(key, emails, targets, streams, counts);
            Get(r.counts, sender) == Get(counts, sender) + Tally(key, r.selected, sender)
            && (Get(counts, sender) <= MaxPerSender ==> Get(r.counts, sender) <= MaxPerSender)
  {
    var pass := BucketPass(key, emails, targets, streams, 0, counts);
    BucketPassAccounting(key, emails, targets, streams, 0, counts, sender);
    if pass.shortfall > 0 {
      var remaining := Remaining(emails, SelectedIds(pass.selected));
      var shuffled := Shuffle(remaining, Stream(streams, |targets|));
      var additional := Greedy(key, shuffled, pass.shortfall, MaxPerSender, pass.counts);
      GreedyAccounting(key, shuffled, pass.shortfall, MaxPerSender, pass.counts, sender);
      if Get(pass.counts, sender) <= MaxPerSender {
        GreedyCap(key, shuffled, pass.shortfall, MaxPerSender, pass.counts, sender);
      }
      TallyAppend(key, pass.selected, additional.selected, sender);
    }
  }

  /** Every e-mail a category selects comes from that category's list. */
  lemma CategoryMembers(key: Email -> string, emails: seq<Email>, targets: seq<(Bucket, nat)>, streams: seq<seq<nat>>,
                        counts: map<string, nat>, e: Email)
    requires e in CategoryPick(key, emails, targets, streams, counts).selected
    ensures e in emails
  {
    var pass := BucketPass(key, emails, targets, streams, 0, counts);
    var r := CategoryPick(key, emails, targets, streams, counts);
    Backfill(key, emails, targets, streams, counts);
    assert r.selected == pass.selected + r.selected[|pass.selected|..];
    if e in pass.selected {
      BucketPassMembers(key, emails, targets, streams, 0, counts, e);
    } else {
      assert e in r.selected[|pass.selected|..];
    }
  }

  // ---------------------------------------------------------------------
  // The imperative code

  /** The bucket loop's result so far, followed by what the remaining
      buckets contribute. */
  function Continue(selected: seq<Email>, shortfall: nat, rest: Pass): Pass
  {
    Pass(selected + rest.selected, shortfall + rest.shortfall, rest.counts)
  }

  /** One bucket of the loop, with its greedy sample named. */
  lemma BucketPassUnfold(key: Email -> string, emails: seq<Email>, targets: seq<(Bucket, nat)>,
                         streams: seq<seq<nat>>, k: nat, counts: map<string, nat>, sampled: Pick)
    requires targets != []
    requires sampled == Greedy(key, Shuffle(InBucket(emails, targets[0].0), Stream(streams, k)), targets[0].1,
                               MaxPerSender, counts)
    ensures var rest := BucketPass(key, emails, targets[1..], streams, k + 1, sampled.counts);
            BucketPass(key, emails, targets, streams, k, counts)
            == Pass(sampled.selected + rest.selected, (targets[0].1 - |sampled.selected|) + rest.shortfall, rest.counts)
  {
  }

  lemma ContinueStep(key: Email -> string, emails: seq<Email>, targets: seq<(Bucket, nat)>, streams: seq<seq<nat>>,
                     j: nat, counts: map<string, nat>, selected: seq<Email>, shortfall: nat, sampled: Pick)
    requires j < |targets|
    requires sampled == Greedy(key, Shuffle(InBucket(emails, targets[j].0), Stream(streams, j)), targets[j].1,
                               MaxPerSender, counts)
    ensures Continue(selected, shortfall, BucketPass(key, emails, targets[j..], streams, j, counts))
         == Continue(selected + sampled.selected, shortfall + (targets[j].1 - |sampled.selected|),
                     BucketPass(key, emails, targets[j + 1..], streams, j + 1, sampled.counts))
  {
    assert targets[j..][0] == targets[j] && targets[j..][1..] == targets[j + 1..];
    BucketPassUnfold(key, emails, targets[j..], streams, j, counts, sampled);
    var rest := BucketPass(key, emails, targets[j + 1..], streams, j + 1, sampled.counts);
    assert selected + (sampled.selected + rest.selected) == selected + sampled.selected + rest.selected;
  }

  /** One turn of the bucket loop, stated over the values the loop holds. */
  lemma BucketLoopStep(key: Email -> string, emails: seq<Email>, targets: seq<(Bucket, nat)>,
                       streams: seq<seq<nat>>, j: nat, before: map<string, nat>, taken: seq<Email>,
                       missing: nat, sampled: seq<Email>, after: map<string, nat>, selected: seq<Email>,
                       shortfall: nat)
    requires j < |targets|
    requires Pick(sampled, after) == Greedy(key, Shuffle(InBucket(emails, targets[j].0), Stream(streams, j)),
                                            targets[j].1, MaxPerSender, before)
    requires selected == taken + sampled && shortfall == missing + (targets[j].1 - |sampled|)
    ensures Continue(selected, shortfall, BucketPass(key, emails, targets[j + 1..], streams, j + 1, after))
         == Continue(taken, missing, BucketPass(key, emails, targets[j..], streams, j, before))
  {
    ContinueStep(key, emails, targets, streams, j, before, taken, missing, Pick(sampled, after));
  }

  /** Lines 128-143: the loop over the buckets. */
  method SampleBuckets(key: Email -> string, emails: seq<Email>, targets: seq<(Bucket, nat)>, counter: SenderCounts,
                       streams: seq<seq<nat>>)
    returns (selected: seq<Email>, shortfall: nat)
    modifies counter
    ensures Pass(selected, shortfall, counter.counts) == BucketPass(key, emails, targets, streams, 0, old(counter.counts))
  {
    selected := [];
    shortfall := 0;
    var j := 0;
    assert Continue(selected, shortfall, BucketPass(key, emails, targets[j..], streams, j, counter.counts))
        == BucketPass(key, emails, targets, streams, 0, old(counter.counts)) by {
      assert targets[0..] == targets;
      assert [] + BucketPass(key, emails, targets, streams, 0, counter.counts).selected
          == BucketPass(key, emails, targets, streams, 0, counter.counts).selected;
    }
    while j < |targets|
      invariant 0 <= j <= |targets|
      invariant Continue(selected, shortfall, BucketPass(key, emails, targets[j..], streams, j, counter.counts))
             == BucketPass(key, emails, targets, streams, 0, old(counter.counts))
    {
      var (bucket, target) := targets[j];
      ghost var before := counter.counts;
      ghost var taken := selected;
      ghost var missing := shortfall;
      var bucketEmails := InBucket(emails, bucket);
      var sampled := SampleWithGlobalSenderCap(key, bucketEmails, Stream(streams, j), target, MaxPerSender, counter);
      selected := selected + sampled;
      var bucketShortfall := target - |sampled|;
      if bucketShortfall > 0 {
        shortfall := shortfall + bucketShortfall;
      }
      BucketLoopStep(key, emails, targets, streams, j, before, taken, missing, sampled, counter.counts,
                     selected, shortfall);
      j := j + 1;
    }
    assert targets[j..] == [];
    assert selected + [] == selected;
  }

  /** Lines 122-159. */
  method SelectWithGlobalCap(key: Email -> string, emails: seq<Email>, targets: seq<(Bucket, nat)>, counter: SenderCounts,
                             streams: seq<seq<nat>>)
    returns (selected: seq<Email>)
    modifies counter
    ensures Pick(selected, counter.counts) == CategoryPick(key, emails, targets, streams, old(counter.counts))
  {
    var shortfall;
    selected, shortfall := SampleBuckets(key, emails, targets, counter, streams);
    if shortfall > 0 {
      var selectedIds := SelectedIds(selected);
      var remaining := Remaining(emails, selectedIds);
      var additional := SampleWithGlobalSenderCap(key, remaining, Stream(streams, |targets|), shortfall, MaxPerSender, counter);
      selected := selected + additional;
    }
  }

  // ---------------------------------------------------------------------
  // `main`: one counter for both categories (lines 175-212)

  const Work: string := "work"
  const Personal: string := "personal"

  function Selection(emails: seq<Email>, list: IgnoreList, workStreams: seq<seq<nat>>,
                     personalStreams: seq<seq<nat>>): (seq<Email>, seq<Email>)
  {
    var work := CategoryPick(SenderOf, Pool(emails, list, Work), WorkTargets, workStreams, map[]);
    var personal := CategoryPick(SenderOf, Pool(emails, list, Personal), PersonalTargets, personalStreams, work.counts);
    (work.selected, personal.selected)
  }

  method SelectEmails(emails: seq<Email>, list: IgnoreList, workStreams: seq<seq<nat>>,
                      personalStreams: seq<seq<nat>>)
    returns (selectedWork: seq<Email>, selectedPersonal: seq<Email>)
    ensures (selectedWork, selectedPersonal) == Selection(emails, list, workStreams, personalStreams)
  {
    var workEmails := Pool(emails, list, Work);
    var personalEmails := Pool(emails, list, Personal);
    var counter := new SenderCounts();
    selectedWork := SelectWithGlobalCap(SenderOf, workEmails, WorkTargets, counter, workStreams);
    selectedPersonal := SelectWithGlobalCap(SenderOf, personalEmails, PersonalTargets, counter, personalStreams);
  }

  /** Because the counter is shared, no sender has more than ten e-mails in
      the combined selection. */
  lemma SelectionSenderCap(emails: seq<Email>, list: IgnoreList, workStreams: seq<seq<nat>>,
                           personalStreams: seq<seq<nat>>, sender: string)
    ensures var (work, personal) := Selection(emails, list, workStreams, personalStreams);
            Tally(SenderOf, work + personal, sender) <= MaxPerSender
  {
    var work := CategoryPick(SenderOf, Pool(emails, list, Work), WorkTargets, workStreams, map[]);
    var personal := CategoryPick(SenderOf, Pool(emails, list, Personal), PersonalTargets, personalStreams, work.counts);
    CategoryAccounting(SenderOf, Pool(emails, list, Work), WorkTargets, workStreams, map[], sender);
    CategoryAccounting(SenderOf, Pool(emails, list, Personal), PersonalTargets, personalStreams, work.counts, sender);
    TallyAppend(SenderOf, work.selected, personal.selected, sender);
  }

  /** At most 200 work and 150 personal e-mails. */
  lemma SelectionSizes(emails: seq<Email>, list: IgnoreList, workStreams: seq<seq<nat>>,
                       personalStreams: seq<seq<nat>>)
    ensures var (work, personal) := Selection(emails, list, workStreams, personalStreams);
            |work| <= 200 && |personal| <= 150
  {
    var work := CategoryPick(SenderOf, Pool(emails, list, Work), WorkTargets, workStreams, map[]);
    CategorySize(SenderOf, Pool(emails, list, Work), WorkTargets, workStreams, map[]);
    CategorySize(SenderOf, Pool(emails, list, Personal), PersonalTargets, personalStreams, work.counts);
  }

  /** Every selected e-mail passed the pool filters of its category. */
  lemma SelectionFromPools(emails: seq<Email>, list: IgnoreList, workStreams: seq<seq<nat>>,
                           personalStreams: seq<seq<nat>>, e: Email)
    ensures var (work, personal) := Selection(emails, list, workStreams, personalStreams);
            (e in work ==> e in emails && InPool(e, list, Work))
            && (e in personal ==> e in emails && InPool(e, list, Personal))
  {
    var work := CategoryPick(SenderOf, Pool(emails, list, Work), WorkTargets, workStreams, map[]);
    var personal := CategoryPick(SenderOf, Pool(emails, list, Personal), PersonalTargets, personalStreams, work.counts);
    PoolMembers(emails, list, Work, e);
    PoolMembers(emails, list, Personal, e);
    if e in work.selected {
      CategoryMembers(SenderOf, Pool(emails, list, Work), WorkTargets, workStreams, map[], e);
    }
    if e in personal.selected {
      CategoryMembers(SenderOf, Pool(emails, list, Personal), PersonalTargets, personalStreams, work.counts, e);
    }
  }

  /** Each target table names every bucket once (they are dictionaries). */
  lemma TargetBucketsDistinct()
    ensures DistinctKeys(WorkTargets, BucketKey) && DistinctKeys(PersonalTargets, BucketKey)
    ensures SumTargets(WorkTargets) == 200 && SumTargets(PersonalTargets) == 150
  {
    assert WorkTargets[1..][1..][1..] == [] && PersonalTargets[1..][1..][1..] == [];
  }

  lemma PoolDistinct(emails: seq<Email>, list: IgnoreList, category: string)
    requires DistinctKeys(emails, ThreadId)
    ensures DistinctKeys(Pool(emails, list, category), ThreadId)
  {
    PoolOrder(emails, list, category);
    SubsequenceDistinct(Pool(emails, list, category), emails, ThreadId);
  }

  /** With unique thread ids in the input, the combined selection has no
      thread twice. */
  lemma SelectionDistinct(emails: seq<Email>, list: IgnoreList, workStreams: seq<seq<nat>>,
                          personalStreams: seq<seq<nat>>)
    requires DistinctKeys(emails, ThreadId)
    ensures var (work, personal) := Selection(emails, list, workStreams, personalStreams);
            DistinctKeys(work + personal, ThreadId)
  {
    var work := CategoryPick(SenderOf, Pool(emails, list, Work), WorkTargets, workStreams, map[]);
    var personal := CategoryPick(SenderOf, Pool(emails, list, Personal), PersonalTargets, personalStreams, work.counts);
    assert DistinctKeys(work.selected, ThreadId) by {
      PoolDistinct(emails, list, Work);
      TargetBucketsDistinct();
      CategoryDistinct(SenderOf, Pool(emails, list, Work), WorkTargets, workStreams, map[]);
    }
    assert DistinctKeys(personal.selected, ThreadId) by {
      PoolDistinct(emails, list, Personal);
      TargetBucketsDistinct();
      CategoryDistinct(SenderOf, Pool(emails, list, Personal), PersonalTargets, personalStreams, work.counts);
    }
    forall x, y | x in work.selected && y in personal.selected
      ensures ThreadId(x) != ThreadId(y)
    {
      SelectionFromPools(emails, list, workStreams, personalStreams, x);
      SelectionFromPools(emails, list, workStreams, personalStreams, y);
      DifferentEmailsDifferentIds(emails, x, y);
    }
    DistinctAppend(work.selected, personal.selected, ThreadId);
  }
}
