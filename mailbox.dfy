/** The e-mail record shared by the selection scripts, and the pure helpers
    of email_selector_ui/select_350_emails.py that classify one record:
    message count and bucket, sender address, ignore list, year, and the
    pool filters of `main`. */
module Mailbox {
  import opened Text
  import opened Seqs
  import opened Segmenter

  /** One entry of emails.json, as built in
      email_selector_ui/prepare_data.py:71-86. A missing text field is the
      empty string. */
  datatype Email = Email(
    threadId: string,
    numMemories: int,
    numHeadlines: nat,
    headlines: string,
    topics: string,
    people: string,
    anchors: string,
    fullContent: string,
    emailPreview: string,
    category: string,
    from: string,
    to: string,
    subject: string,
    time: string)

  function ThreadId(e: Email): string { e.threadId }

  // ---------------------------------------------------------------------
  // Message count and bucket (lines 77-91)

  function CountHeaders(lines: seq<string>): (n: nat)
    ensures n <= |lines|
  {
    if lines == [] then 0
    else (if IsMessageHeader(lines[0]) then 1 else 0) + CountHeaders(lines[1..])
  }

  /** `len(re.findall(r'^Message \d+', content, re.MULTILINE))`: one match
      per line that starts with "Message " and a digit. */
  function CountMessages(content: string): nat
  {
    CountHeaders(Lines(content))
  }

  lemma {:induction false} CountHeadersAppend(xs: seq<string>, ys: seq<string>)
    ensures CountHeaders(xs + ys) == CountHeaders(xs) + CountHeaders(ys)
    decreases |xs|
  {
    if xs == [] {
      assert xs + ys == ys;
    } else {
      assert (xs + ys)[1..] == xs[1..] + ys;
      CountHeadersAppend(xs[1..], ys);
    }
  }

  /** Counting is additive over lines: joining two texts with a line break
      adds their counts. */
  lemma MessageCountAppend(a: string, b: string)
    ensures CountMessages(a + "\n" + b) == CountMessages(a) + CountMessages(b)
  {
    LinesAround(a, b);
    CountHeadersAppend(Lines(a), Lines(b));
  }

  lemma {:induction false} CountHeadersPositive(lines: seq<string>)
    ensures CountHeaders(lines) > 0 <==> exists line :: line in lines && IsMessageHeader(line)
    decreases |lines|
  {
    if lines != [] {
      CountHeadersPositive(lines[1..]);
      assert lines == [lines[0]] + lines[1..];
    }
  }

  /** A thread counts at least one message exactly when the header test of
      `remove_duplicate_content` finds a header in it. */
  lemma MessageCountPositive(content: string)
    ensures CountMessages(content) > 0 <==> HasMessageLine(content)
  {
    CountHeadersPositive(Lines(content));
  }

  datatype Bucket = OneMsg | TwoMsg | ThreePlusMsg

  /** `get_message_bucket` on a count; a count of 0 falls back to 1-msg. */
  function BucketOf(count: nat): (b: Bucket)
    ensures b == OneMsg <==> count <= 1
    ensures b == TwoMsg <==> count == 2
    ensures b == ThreePlusMsg <==> count >= 3
  {
    if count == 1 then OneMsg
    else if count == 2 then TwoMsg
    else if count >= 3 then ThreePlusMsg
    else OneMsg
  }

  function MessageBucket(e: Email): Bucket
  {
    BucketOf(CountMessages(e.fullContent))
  }

  // ---------------------------------------------------------------------
  // Sender address (lines 93-99)

  /** The class `[\w\.-]` on ASCII text. */
  predicate IsAddressChar(c: char)
  {
    'a' <= c <= 'z' || 'A' <= c <= 'Z' || '0' <= c <= '9' || c == '_' || c == '.' || c == '-'
  }

  function AddressRunEnd(s: string, i: nat): (j: nat)
    requires i <= |s|
    ensures i <= j <= |s|
    decreases |s| - i
  {
    if i < |s| && IsAddressChar(s[i]) then AddressRunEnd(s, i + 1) else i
  }

  lemma {:induction false} AddressRunEndIs(s: string, i: nat, j: nat)
    requires i <= j <= |s|
    requires forall k :: i <= k < j ==> IsAddressChar(s[k])
    requires j == |s| || !IsAddressChar(s[j])
    ensures AddressRunEnd(s, i) == j
    decreases j - i
  {
    if i < j {
      AddressRunEndIs(s, i + 1, j);
    }
  }

  /** The end of a match of `[\w\.-]+@[\w\.-]+` starting at `i`. The first
      run cannot give back characters to reach an "@" (none of them is one),
      so it matches only if the run from `i` is followed by "@" and one more
      address character; the second run is then as long as possible. */
  function AddressAt(s: string, i: nat): (k: Option<nat>)
    requires i <= |s|
    ensures k.Some? ==> i < k.value <= |s|
  {
    var j := AddressRunEnd(s, i);
    if i < j && j + 1 < |s| && s[j] == '@' && IsAddressChar(s[j + 1])
    then Some(AddressRunEnd(s, j + 1))
    else None
  }

  /** `re.search`: the leftmost start with a match. */
  function FindAddress(s: string, i: nat): (m: Option<(nat, nat)>)
    requires i <= |s|
    ensures m.Some? ==> i <= m.value.0 < m.value.1 <= |s|
    decreases |s| - i
  {
    if i == |s| then None
    else match AddressAt(s, i)
      case Some(k) => Some((i, k))
      case None => FindAddress(s, i + 1)
  }

  /** `extract_sender`: the first address in the lower-cased From field,
      else its first 50 characters, else "unknown". */
  function ExtractSender(from: string): string
  {
    var f := Lower(from);
    match FindAddress(f, 0)
    case Some((i, k)) => f[i..k]
    case None => if f != [] then f[..if |f| < 50 then |f| else 50] else "unknown"
  }

  function SenderOf(e: Email): string
  {
    ExtractSender(e.from)
  }

  lemma LowerKeepsAddressChars(s: string, c: char)
    requires c in Lower(s)
    ensures c == '@' ==> '@' in s
  {
  }

  lemma {:induction false} FindAddressNone(s: string, i: nat)
    requires i <= |s| && '@' !in s
    ensures FindAddress(s, i) == None
    decreases |s| - i
  {
    if i < |s| {
      var j := AddressRunEnd(s, i);
      assert AddressAt(s, i) == None by {
        if j + 1 < |s| {
          assert s[j] != '@';
        }
      }
      FindAddressNone(s, i + 1);
    }
  }

  /** Without an "@" there is no address: the sender is the first 50
      characters of the lower-cased field, or "unknown" when it is empty. */
  lemma SenderWithoutAddress(from: string)
    requires '@' !in from
    ensures ExtractSender(from)
         == if from == [] then "unknown" else Lower(from)[..if |from| < 50 then |from| else 50]
  {
    FindAddressNone(Lower(from), 0);
  }

  /** A field that is a bare address `local@domain` is its own sender, in
      lower case. */
  lemma SenderOfBareAddress(local: string, domain: string)
    requires local != [] && domain != []
    requires forall k :: 0 <= k < |local| ==> IsAddressChar(local[k])
    requires forall k :: 0 <= k < |domain| ==> IsAddressChar(domain[k])
    ensures ExtractSender(local + "@" + domain) == Lower(local + "@" + domain)
  {
    var from := local + "@" + domain;
    var f := Lower(from);
    var j := |local|;
    assert f[j] == '@' by { assert from[j] == '@'; }
    assert AddressRunEnd(f, 0) == j by {
      forall k | 0 <= k < j ensures IsAddressChar(f[k]) {
        assert from[k] == local[k];
      }
      AddressRunEndIs(f, 0, j);
    }
    assert AddressRunEnd(f, j + 1) == |f| by {
      forall k | j + 1 <= k < |f| ensures IsAddressChar(f[k]) {
        assert from[k] == domain[k - j - 1];
      }
      AddressRunEndIs(f, j + 1, |f|);
    }
    assert IsAddressChar(f[j + 1]) by { assert from[j + 1] == domain[0]; }
    assert FindAddress(f, 0) == Some((0 as nat, |f| as nat));
    assert f[0..|f|] == f;
  }

  // ---------------------------------------------------------------------
  // Ignore list (lines 31-65)

  datatype IgnoreList = IgnoreList(senders: seq<string>, domains: seq<string>, patterns: seq<string>)

  /** `load_ignore_list` after the file is read: one entry per entry read,
      equal to it up to letter case and already in lower case, so that the
      tests of `is_ignored` against lower-cased fields ignore case. */
  function LoadIgnoreList(senders: seq<string>, domains: seq<string>, patterns: seq<string>): (r: IgnoreList)
    ensures |r.senders| == |senders| && |r.domains| == |domains| && |r.patterns| == |patterns|
    ensures forall k :: 0 <= k < |senders| ==> Lower(r.senders[k]) == r.senders[k] == Lower(senders[k])
    ensures forall k :: 0 <= k < |domains| ==> Lower(r.domains[k]) == r.domains[k] == Lower(domains[k])
    ensures forall k :: 0 <= k < |patterns| ==> Lower(r.patterns[k]) == r.patterns[k] == Lower(patterns[k])
  {
    IgnoreList(
      seq(|senders|, k requires 0 <= k < |senders| => Lower(senders[k])),
      seq(|domains|, k requires 0 <= k < |domains| => Lower(domains[k])),
      seq(|patterns|, k requires 0 <= k < |patterns| => Lower(patterns[k])))
  }

  /** Does `needle` occur in one of the fields? */
  predicate OccursIn(fields: seq<string>, needle: string)
  {
    fields != [] && (Contains(fields[0], needle) || OccursIn(fields[1..], needle))
  }

  /** The loops of `is_ignored`: does some needle, tried in turn, occur in
      one of the fields? */
  predicate AnyContained(needles: seq<string>, fields: seq<string>)
  {
    needles != [] && (OccursIn(fields, needles[0]) || AnyContained(needles[1..], fields))
  }

  lemma {:induction false} AnyContainedIff(needles: seq<string>, fields: seq<string>)
    ensures AnyContained(needles, fields)
        <==> exists k :: 0 <= k < |needles| && OccursIn(fields, needles[k])
    decreases |needles|
  {
    if needles != [] {
      AnyContainedIff(needles[1..], fields);
      if exists k :: 0 <= k < |needles| && OccursIn(fields, needles[k]) {
        var k :| 0 <= k < |needles| && OccursIn(fields, needles[k]);
        if k > 0 {
          assert needles[1..][k - 1] == needles[k];
        }
      }
      if AnyContained(needles[1..], fields) {
        var k :| 0 <= k < |needles[1..]| && OccursIn(fields, needles[1..][k]);
        assert needles[k + 1] == needles[1..][k];
      }
    }
  }

  predicate IsIgnored(e: Email, list: IgnoreList)
  {
    var from := Lower(e.from);
    var to := Lower(e.to);
    AnyContained(list.senders, [from, to])
    || AnyContained(list.domains, [from, to])
    || AnyContained(list.patterns, [Lower(e.subject), Lower(e.headlines), Lower(e.fullContent)])
  }

  /** An e-mail is ignored exactly when an ignored sender or domain occurs in
      its lower-cased From or To field, or an ignored pattern occurs in its
      lower-cased subject, headlines or content. */
  lemma IsIgnoredIff(e: Email, list: IgnoreList)
    ensures IsIgnored(e, list) <==>
      (exists k :: 0 <= k < |list.senders|
         && (Contains(Lower(e.from), list.senders[k]) || Contains(Lower(e.to), list.senders[k])))
      || (exists k :: 0 <= k < |list.domains|
            && (Contains(Lower(e.from), list.domains[k]) || Contains(Lower(e.to), list.domains[k])))
      || (exists k :: 0 <= k < |list.patterns|
            && (Contains(Lower(e.subject), list.patterns[k]) || Contains(Lower(e.headlines), list.patterns[k])
                || Contains(Lower(e.fullContent), list.patterns[k])))
  {
    var addr := [Lower(e.from), Lower(e.to)];
    var text := [Lower(e.subject), Lower(e.headlines), Lower(e.fullContent)];
    forall n
      ensures OccursIn(addr, n) <==> Contains(Lower(e.from), n) || Contains(Lower(e.to), n)
    {
      assert addr[0] == Lower(e.from) && addr[1..][0] == Lower(e.to) && addr[1..][1..] == [];
      assert OccursIn(addr[1..], n) <==> Contains(Lower(e.to), n) || OccursIn(addr[1..][1..], n);
    }
    forall n
      ensures OccursIn(text, n)
          <==> Contains(Lower(e.subject), n) || Contains(Lower(e.headlines), n) || Contains(Lower(e.fullContent), n)
    {
      var t1 := text[1..];
      var t2 := t1[1..];
      assert text[0] == Lower(e.subject) && t1[0] == Lower(e.headlines) && t2[0] == Lower(e.fullContent);
      assert t2[1..] == [];
      assert OccursIn(t2, n) <==> Contains(Lower(e.fullContent), n) || OccursIn(t2[1..], n);
      assert OccursIn(t1, n) <==> Contains(Lower(e.headlines), n) || OccursIn(t2, n);
    }
    AnyContainedIff(list.senders, addr);
    AnyContainedIff(list.domains, addr);
    AnyContainedIff(list.patterns, text);
  }

  // ---------------------------------------------------------------------
  // Year (lines 67-75)

  predicate AllDigits(s: string)
  {
    forall k :: 0 <= k < |s| ==> IsDigit(s[k])
  }

  function DigitsValue(s: string): nat
    requires AllDigits(s)
  {
    if s == [] then 0
    else 10 * DigitsValue(s[..|s| - 1]) + (s[|s| - 1] as int - '0' as int)
  }

  /** `get_year`: the first four characters read as a decimal number; None
      for an empty field or one whose head is not all digits. */
  function Year(time: string): Option<nat>
  {
    if time == [] then None
    else
      var head := time[..if |time| < 4 then |time| else 4];
      if head != [] && AllDigits(head) then Some(DigitsValue(head)) else None
  }

  lemma {:induction false} DigitsValueBound(s: string)
    requires AllDigits(s) && |s| <= 3
    ensures DigitsValue(s) < 1000
    decreases |s|
  {
    if s != [] {
      DigitsValueBound(s[..|s| - 1]);
      if |s| == 1 {
        assert DigitsValue(s[..0]) == 0;
      } else if |s| == 2 {
        assert DigitsValue(s[..|s| - 1]) < 10 by {
          var t := s[..|s| - 1];
          assert DigitsValue(t[..0]) == 0;
        }
      } else {
        assert DigitsValue(s[..|s| - 1]) < 100 by {
          var t := s[..|s| - 1];
          assert t[..1][..0] == [];
          assert DigitsValue(t[..1]) < 10;
          assert t[..|t| - 1] == t[..1];
        }
      }
    }
  }

  /** The year filter of line 179 holds exactly for times starting with
      "2025". */
  lemma YearIs2025(time: string)
    ensures Year(time) == Some(2025) <==> |time| >= 4 && time[..4] == "2025"
  {
    if |time| >= 4 {
      var h := time[..4];
      if AllDigits(h) {
        var d0, d1, d2, d3 := h[0] as int - '0' as int, h[1] as int - '0' as int,
                              h[2] as int - '0' as int, h[3] as int - '0' as int;
        assert DigitsValue(h[..1]) == d0 by {
          assert h[..1][..0] == [];
        }
        assert DigitsValue(h[..2]) == 10 * d0 + d1 by {
          assert h[..2][..1] == h[..1];
        }
        assert DigitsValue(h[..3]) == 100 * d0 + 10 * d1 + d2 by {
          assert h[..3][..2] == h[..2];
        }
        assert DigitsValue(h) == 1000 * d0 + 100 * d1 + 10 * d2 + d3 by {
          assert h[..3] == h[..|h| - 1];
        }
        assert IsDigit(h[0]) && IsDigit(h[1]) && IsDigit(h[2]) && IsDigit(h[3]);
        if DigitsValue(h) == 2025 {
          assert d0 == 2 && d1 == 0 && d2 == 2 && d3 == 5;
          assert h == "2025";
        }
      }
    } else if time != [] && AllDigits(time) {
      assert time[..|time|] == time;
      DigitsValueBound(time);
    }
  }

  // ---------------------------------------------------------------------
  // The selection pool (lines 174-188)

  const TargetYear: nat := 2025
  const MaxChars: nat := 20000

  /** The four filters of `main`, applied in the source's order. */
  function Pool(emails: seq<Email>, list: IgnoreList, category: string): seq<Email>
  {
    var filtered := Filter(emails, (e: Email) => !IsIgnored(e, list));
    var filtered2025 := Filter(filtered, (e: Email) => Year(e.time) == Some(TargetYear));
    var short := Filter(filtered2025, (e: Email) => |e.fullContent| <= MaxChars);
    Filter(short, (e: Email) => e.category == category)
  }

  predicate InPool(e: Email, list: IgnoreList, category: string)
  {
    !IsIgnored(e, list) && Year(e.time) == Some(TargetYear)
    && |e.fullContent| <= MaxChars && e.category == category
  }

  /** The pool holds exactly the e-mails that are not ignored, are from
      2025, have at most 20 000 characters of content and belong to the
      category. */
  lemma PoolMembers(emails: seq<Email>, list: IgnoreList, category: string, e: Email)
    ensures e in Pool(emails, list, category) <==> e in emails && InPool(e, list, category)
  {
    var p1 := (e: Email) => !IsIgnored(e, list);
    var p2 := (e: Email) => Year(e.time) == Some(TargetYear);
    var p3 := (e: Email) => |e.fullContent| <= MaxChars;
    var p4 := (e: Email) => e.category == category;
    var f1 := Filter(emails, p1);
    var f2 := Filter(f1, p2);
    var f3 := Filter(f2, p3);
    FilterMembers(emails, p1, e);
    FilterMembers(f1, p2, e);
    FilterMembers(f2, p3, e);
    FilterMembers(f3, p4, e);
  }

  /** The pool keeps the input order. */
  lemma PoolOrder(emails: seq<Email>, list: IgnoreList, category: string)
    ensures IsSubsequence(Pool(emails, list, category), emails)
  {
    var p1 := (e: Email) => !IsIgnored(e, list);
    var p2 := (e: Email) => Year(e.time) == Some(TargetYear);
    var p3 := (e: Email) => |e.fullContent| <= MaxChars;
    var p4 := (e: Email) => e.category == category;
    var f1 := Filter(emails, p1);
    var f2 := Filter(f1, p2);
    var f3 := Filter(f2, p3);
    FilterSubsequence(emails, p1);
    FilterSubsequence(f1, p2);
    FilterSubsequence(f2, p3);
    FilterSubsequence(f3, p4);
    SubsequenceTrans(Filter(f3, p4), f3, f2);
    SubsequenceTrans(Filter(f3, p4), f2, f1);
    SubsequenceTrans(Filter(f3, p4), f1, emails);
  }
}
