/** `sample_with_global_sender_cap`
    (email_selector_ui/select_350_emails.py:101-120): a greedy pass over the
    shuffled candidates that accepts an e-mail only while its sender is
    below the cap, counting acceptances in a map shared by every call. */
module SenderCap {
  import opened Seqs
  import opened Shuffling
  import opened Mailbox

  /** Line 28. */
  const MaxPerSender: nat := 10

  /** A `defaultdict(int)` read: an absent sender counts 0. */
  function Get(counts: map<string, nat>, sender: string): nat
  {
    if sender in counts then counts[sender] else 0
  }

  /** How many entries of `xs` come from `sender`. */
  function Tally(key: Email -> string, xs: seq<Email>, sender: string): (n: nat)
    ensures n <= |xs|
  {
    if xs == [] then 0
    else (if key(xs[0]) == sender then 1 else 0) + Tally(key, xs[1..], sender)
  }

  lemma {:induction false} TallyAppend(key: Email -> string, xs: seq<Email>, ys: seq<Email>, sender: string)
    ensures Tally(key, xs + ys, sender) == Tally(key, xs, sender) + Tally(key, ys, sender)
    decreases |xs|
  {
    if xs == [] {
      assert xs + ys == ys;
    } else {
      assert (xs + ys)[1..] == xs[1..] + ys;
      TallyAppend(key, xs[1..], ys, sender);
    }
  }

  /** The shared per-sender counter (`global_sender_counts`, line 202). */
  class SenderCounts {
    var counts: map<string, nat>

    constructor ()
      ensures counts == map[]
    {
      counts := map[];
    }

    function Count(sender: string): nat
      reads this
    {
      Get(counts, sender)
    }

    /** `global_sender_counts[sender]` on a defaultdict: reading an absent
        key stores it with 0. */
    method Lookup(sender: string) returns (c: nat)
      modifies this
      ensures c == Get(old(counts), sender)
      ensures counts == old(counts)[sender := c]
    {
      c := Get(counts, sender);
      counts := counts[sender := c];
    }

    /** `global_sender_counts[sender] += 1`. */
    method Increment(sender: string)
      modifies this
      ensures counts == old(counts)[sender := Get(old(counts), sender) + 1]
    {
      counts := counts[sender := Get(counts, sender) + 1];
    }
  }

  /** What a pass selects and the counter it leaves behind. */
  datatype Pick = Pick(selected: seq<Email>, counts: map<string, nat>)

  /** The greedy pass over `candidates` (already shuffled) with room for
      `room` more e-mails. `key` is the sender of an e-mail: the selection
      passes `extract_sender` (`Mailbox.SenderOf`, lines 93-99); keeping it a
      parameter keeps these proofs independent of how it is computed. */
  function Greedy(key: Email -> string, candidates: seq<Email>, room: nat, cap: nat, counts: map<string, nat>): (r: Pick)
    ensures |r.selected| <= room
    decreases |candidates|
  {
    if candidates == [] || room == 0 then Pick([], counts)
    else
      var sender := key(candidates[0]);
      var c := Get(counts, sender);
      if c < cap then
        var rest := Greedy(key, candidates[1..], room - 1, cap, counts[sender := c + 1]);
        Pick([candidates[0]] + rest.selected, rest.counts)
      else Greedy(key, candidates[1..], room, cap, counts[sender := c])
  }

  /** The selection keeps the shuffled order. */
  lemma {:induction false} GreedySubsequence(key: Email -> string, candidates: seq<Email>, room: nat, cap: nat, counts: map<string, nat>)
    ensures IsSubsequence(Greedy(key, candidates, room, cap, counts).selected, candidates)
    decreases |candidates|
  {
    if candidates != [] && room > 0 {
      var sender := key(candidates[0]);
      var c := Get(counts, sender);
      if c < cap {
        GreedySubsequence(key, candidates[1..], room - 1, cap, counts[sender := c + 1]);
      } else {
        GreedySubsequence(key, candidates[1..], room, cap, counts[sender := c]);
        SubsequenceSkip(Greedy(key, candidates, room, cap, counts).selected, candidates);
      }
    }
  }

  /** Every acceptance adds exactly 1 to its sender's count and nothing else
      changes a count; the counter never forgets a sender. */
  lemma {:induction false} GreedyAccounting(key: Email -> string, candidates: seq<Email>, room: nat, cap: nat, counts: map<string, nat>, sender: string)
    ensures var r := Greedy(key, candidates, room, cap, counts);
            Get(r.counts, sender) == Get(counts, sender) + Tally(key, r.selected, sender)
            && counts.Keys <= r.counts.Keys
    decreases |candidates|
  {
    if candidates != [] && room > 0 {
      var s := key(candidates[0]);
      var c := Get(counts, s);
      if c < cap {
        GreedyAccounting(key, candidates[1..], room - 1, cap, counts[s := c + 1], sender);
        var r := Greedy(key, candidates, room, cap, counts);
        assert r.selected[1..] == Greedy(key, candidates[1..], room - 1, cap, counts[s := c + 1]).selected;
      } else {
        GreedyAccounting(key, candidates[1..], room, cap, counts[s := c], sender);
      }
    }
  }

  /** A sender at or below the cap before the pass is at or below it after. */
  lemma {:induction false} GreedyCap(key: Email -> string, candidates: seq<Email>, room: nat, cap: nat, counts: map<string, nat>, sender: string)
    requires Get(counts, sender) <= cap
    ensures Get(Greedy(key, candidates, room, cap, counts).counts, sender) <= cap
    decreases |candidates|
  {
    if candidates != [] && room > 0 {
      var s := key(candidates[0]);
      var c := Get(counts, s);
      if c < cap {
        GreedyCap(key, candidates[1..], room - 1, cap, counts[s := c + 1], sender);
      } else {
        GreedyCap(key, candidates[1..], room, cap, counts[s := c], sender);
      }
    }
  }

  /** Walking a list in two parts: the second part starts with the room and
      the counts the first part leaves. */
  lemma {:induction false} GreedyAppend(key: Email -> string, a: seq<Email>, b: seq<Email>, room: nat, cap: nat, counts: map<string, nat>)
    ensures Greedy(key, a + b, room, cap, counts) == Sequenced(key, a, b, room, cap, counts)
    decreases |a|
  {
    if a == [] {
      assert a + b == b;
    } else if room > 0 {
      var s := key(a[0]);
      var c := Get(counts, s);
      if c < cap {
        GreedyAppend(key, a[1..], b, room - 1, cap, counts[s := c + 1]);
        AppendTaken(key, a, b, room, cap, counts);
      } else {
        GreedyAppend(key, a[1..], b, room, cap, counts[s := c]);
        AppendPassed(key, a, b, room, cap, counts);
      }
    }
  }

  /** The loop over `a`, then over `b` with what `a` left. */
  function Sequenced(key: Email -> string, a: seq<Email>, b: seq<Email>, room: nat, cap: nat, counts: map<string, nat>): Pick
  {
    var g := Greedy(key, a, room, cap, counts);
    var h := Greedy(key, b, room - |g.selected|, cap, g.counts);
    Pick(g.selected + h.selected, h.counts)
  }

  /** The step of `GreedyAppend` where the first email is taken. */
  lemma AppendTaken(key: Email -> string, a: seq<Email>, b: seq<Email>, room: nat, cap: nat, counts: map<string, nat>)
    requires a != [] && room > 0 && Get(counts, key(a[0])) < cap
    requires var next := counts[key(a[0]) := Get(counts, key(a[0])) + 1];
             Greedy(key, a[1..] + b, room - 1, cap, next) == Sequenced(key, a[1..], b, room - 1, cap, next)
    ensures Greedy(key, a + b, room, cap, counts) == Sequenced(key, a, b, room, cap, counts)
  {
    var s := key(a[0]);
    var next := counts[s := Get(counts, s) + 1];
    var ab := a + b;
    assert ab[0] == a[0] && ab[1..] == a[1..] + b;
    var r := Greedy(key, a[1..] + b, room - 1, cap, next);
    assert Greedy(key, ab, room, cap, counts) == Pick([a[0]] + r.selected, r.counts);
    var g' := Greedy(key, a[1..], room - 1, cap, next);
    var g := Greedy(key, a, room, cap, counts);
    assert g == Pick([a[0]] + g'.selected, g'.counts);
    var h := Greedy(key, b, room - |g.selected|, cap, g.counts);
    assert room - |g.selected| == room - 1 - |g'.selected|;
    assert r == Pick(g'.selected + h.selected, h.counts);
    ConsAppend(a[0], g'.selected, h.selected);
  }

  /** The step of `GreedyAppend` where the first email is passed over. */
  lemma AppendPassed(key: Email -> string, a: seq<Email>, b: seq<Email>, room: nat, cap: nat, counts: map<string, nat>)
    requires a != [] && room > 0 && Get(counts, key(a[0])) >= cap
    requires var next := counts[key(a[0]) := Get(counts, key(a[0]))];
             Greedy(key, a[1..] + b, room, cap, next) == Sequenced(key, a[1..], b, room, cap, next)
    ensures Greedy(key, a + b, room, cap, counts) == Sequenced(key, a, b, room, cap, counts)
  {
    assert (a + b)[0] == a[0] && (a + b)[1..] == a[1..] + b;
  }

  /** An email left out while room remained was reached when its sender
      already had `cap` picks. */
  lemma GreedySkipped(key: Email -> string, candidates: seq<Email>, room: nat, cap: nat, counts: map<string, nat>, i: nat)
    requires i < |candidates|
    requires |Greedy(key, candidates, room, cap, counts).selected| < room
    requires candidates[i] !in Greedy(key, candidates, room, cap, counts).selected
    ensures Get(Greedy(key, candidates[..i], room, cap, counts).counts, key(candidates[i])) >= cap
  {
    var a, b := candidates[..i], candidates[i..];
    assert candidates == a + b;
    GreedyAppend(key, a, b, room, cap, counts);
    var g := Greedy(key, a, room, cap, counts);
    var h := Greedy(key, b, room - |g.selected|, cap, g.counts);
    assert b[0] == candidates[i];
    if Get(g.counts, key(b[0])) < cap {
      assert false;
    }
  }

  /** A pass that falls short of its room skipped only e-mails whose sender
      had reached the cap. */
  lemma {:induction false} GreedyShortfall(key: Email -> string, candidates: seq<Email>, room: nat, cap: nat, counts: map<string, nat>, e: Email)
    requires |Greedy(key, candidates, room, cap, counts).selected| < room
    requires e in candidates && e !in Greedy(key, candidates, room, cap, counts).selected
    ensures Get(Greedy(key, candidates, room, cap, counts).counts, key(e)) >= cap
    ensures forall i :: 0 <= i < |candidates| && candidates[i] == e ==>
              Get(Greedy(key, candidates[..i], room, cap, counts).counts, key(e)) >= cap
    decreases |candidates|
  {
    forall i | 0 <= i < |candidates| && candidates[i] == e
      ensures Get(Greedy(key, candidates[..i], room, cap, counts).counts, key(e)) >= cap
    {
      GreedySkipped(key, candidates, room, cap, counts, i);
    }
    var s := key(candidates[0]);
    var c := Get(counts, s);
    if c < cap {
      var rest := Greedy(key, candidates[1..], room - 1, cap, counts[s := c + 1]);
      assert e != candidates[0];
      GreedyShortfall(key, candidates[1..], room - 1, cap, counts[s := c + 1], e);
    } else {
      var rest := Greedy(key, candidates[1..], room, cap, counts[s := c]);
      if e in candidates[1..] {
        GreedyShortfall(key, candidates[1..], room, cap, counts[s := c], e);
      } else {
        GreedyAccounting(key, candidates[1..], room, cap, counts[s := c], s);
      }
    }
  }

  /** `selected` so far, followed by what the rest of the pass picks. */
  function Resume(key: Email -> string, selected: seq<Email>, candidates: seq<Email>, room: nat, cap: nat, counts: map<string, nat>): Pick
  {
    var g := Greedy(key, candidates, room, cap, counts);
    Pick(selected + g.selected, g.counts)
  }

  /** One step of the pass. */
  lemma ResumeStep(key: Email -> string, selected: seq<Email>, candidates: seq<Email>, room: nat, cap: nat, counts: map<string, nat>)
    requires candidates != [] && room > 0
    ensures
      var s := key(candidates[0]);
      var c := Get(counts, s);
      Resume(key, selected, candidates, room, cap, counts)
      == if c < cap then Resume(key, selected + [candidates[0]], candidates[1..], room - 1, cap, counts[s := c + 1])
         else Resume(key, selected, candidates[1..], room, cap, counts[s := c])
  {
    var s := key(candidates[0]);
    var c := Get(counts, s);
    if c < cap {
      var g := Greedy(key, candidates[1..], room - 1, cap, counts[s := c + 1]);
      assert selected + ([candidates[0]] + g.selected) == selected + [candidates[0]] + g.selected;
    }
  }

  /** Lines 101-120: shuffle, then walk the candidates, stopping once
      `target` are selected; `key` is `extract_sender` (line 115). */
  method SampleWithGlobalSenderCap(key: Email -> string, emails: seq<Email>, draws: seq<nat>, target: nat, maxPerSender: nat,
                                   counter: SenderCounts)
    returns (selected: seq<Email>)
    modifies counter
    ensures Pick(selected, counter.counts)
         == Greedy(key, Shuffle(emails, draws), target, maxPerSender, old(counter.counts))
  {
    var shuffled := Shuffle(emails, draws);
    selected := [];
    var i := 0;
    assert Resume(key, selected, shuffled[i..], target - |selected|, maxPerSender, counter.counts)
        == Greedy(key, shuffled, target, maxPerSender, old(counter.counts)) by {
      assert shuffled[0..] == shuffled;
      assert [] + Greedy(key, shuffled, target, maxPerSender, counter.counts).selected
          == Greedy(key, shuffled, target, maxPerSender, counter.counts).selected;
    }
    while i < |shuffled|
      invariant 0 <= i <= |shuffled| && |selected| <= target
      invariant Resume(key, selected, shuffled[i..], target - |selected|, maxPerSender, counter.counts)
             == Greedy(key, shuffled, target, maxPerSender, old(counter.counts))
    {
      if |selected| >= target {
        break;
      }
      var email := shuffled[i];
      var sender := key(email);
      ghost var before := counter.counts;
      ghost var taken := selected;
      ghost var room := target - |selected|;
      var c := counter.Lookup(sender);
      if c < maxPerSender {
        selected := selected + [email];
        counter.Increment(sender);
        assert Resume(key, selected, shuffled[i + 1..], room - 1, maxPerSender, counter.counts)
            == Resume(key, taken, shuffled[i..], room, maxPerSender, before) by {
          ResumeStep(key, taken, shuffled[i..], room, maxPerSender, before);
          assert shuffled[i..][0] == email && shuffled[i..][1..] == shuffled[i + 1..];
          assert counter.counts == before[sender := c + 1];
        }
      } else {
        assert Resume(key, selected, shuffled[i + 1..], room, maxPerSender, counter.counts)
            == Resume(key, taken, shuffled[i..], room, maxPerSender, before) by {
          ResumeStep(key, taken, shuffled[i..], room, maxPerSender, before);
          assert shuffled[i..][0] == email && shuffled[i..][1..] == shuffled[i + 1..];
        }
      }
      i := i + 1;
    }
    assert Greedy(key, shuffled[i..], target - |selected|, maxPerSender, counter.counts) == Pick([], counter.counts) by {
      assert i == |shuffled| || |selected| >= target;
      if i == |shuffled| {
        assert shuffled[i..] == [];
      }
    }
    assert selected + [] == selected;
  }
}
