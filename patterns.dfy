/** The three patterns whose repeated occurrences are thinned out by
    `clean_boilerplate` and `clean_signatures`
    (email_selector_ui/clean_emails.py:205-221, 361-370), matched as Python's
    `re` engine matches them, and the "keep the first match, cut or replace
    the later ones, last to first" edit that both functions perform. All three
    patterns are matched with `re.IGNORECASE`; letter case is ASCII. */
module Patterns {
  import opened Text

  datatype Pattern =
    | Confidentiality   // line 206, with re.DOTALL
    | Environment       // line 217
    | KreimanSignature  // line 362

  /** A match: the text `s[start..end]`. */
  datatype Span = Span(start: nat, end: nat)

  const ConfidentialityLead: string := "The information contained in this electronic message may be legally privileged"
  const EnvironmentNotice: string := "Please consider the environment before printing this e-mail"

  /** The literal `lit` occurs at `i`, ignoring case. */
  predicate LitAt(s: string, i: nat, lit: string)
  {
    i + |lit| <= |s| && Lower(s[i..i + |lit|]) == Lower(lit)
  }

  /** The lookahead `(?=\n\n|\n\*{3,}|\Z)`: a blank line, a line of at least
      three asterisks, or the very end of the text follows `q`. */
  predicate NoticeBoundary(s: string, q: nat)
    requires q <= |s|
  {
    q == |s| || "\n\n" <= s[q..] || "\n***" <= s[q..]
  }

  /** The lazy `.*?` (with re.DOTALL): the first boundary at or after `q`. */
  function NoticeEnd(s: string, q: nat): (e: nat)
    requires q <= |s|
    ensures q <= e <= |s| && NoticeBoundary(s, e)
    ensures forall k :: q <= k < e ==> !NoticeBoundary(s, k)
    decreases |s| - q
  {
    if NoticeBoundary(s, q) then q else NoticeEnd(s, q + 1)
  }

  /** `\s*\n`: the greedy run of white space gives back characters until a
      line break ends it, so the match ends just after the LAST line break of
      the run. */
  function SpacesThenNewline(s: string, i: nat): (e: Option<nat>)
    requires i <= |s|
    ensures e.Some? ==> i < e.value <= |s| && s[e.value - 1] == '\n'
  {
    match LastNewline(s, i, SpaceRunEnd(s, i))
    case Some(k) => Some(k + 1)
    case None => None
  }

  /** `.*?lit.*?\n` without re.DOTALL: the rest of the current line holds
      `lit` and ends in a line break, which the match takes. */
  function LineHolding(s: string, i: nat, lit: string): (e: Option<nat>)
    requires i <= |s|
    ensures e.Some? ==> i < e.value <= |s|
  {
    var end := IndexFrom(s, '\n', i);
    if end < |s| && ContainsCI(s[i..end], lit) then Some(end + 1) else None
  }

  /** An optional group `(?:...)?`: taken when it matches, skipped otherwise. */
  function Optional(group: Option<nat>, i: nat): nat
  {
    if group.Some? then group.value else i
  }

  /** `Gabriel Kreiman\s*\n` followed by the optional lines of the signature
      block, each taken greedily when present. Every group after the first
      line is optional, so the first way the engine tries is the match. */
  function KreimanAt(s: string, i: nat): (e: Option<nat>)
    requires i <= |s|
    ensures e.Some? ==> i < e.value <= |s|
  {
    if !LitAt(s, i, "Gabriel Kreiman") then None
    else match SpacesThenNewline(s, i + |"Gabriel Kreiman"|)
      case None => None
      case Some(a) =>
        var b := Optional(LiteralLine(s, a, "Professor"), a);
        var c := HospitalPart(s, b);
        var d := Optional(LiteralLine(s, c, "Harvard Medical School"), c);
        var e := Optional(LabLine(s, d), d);
        var f := Optional(TwitterLine(s, e), e);
        var g := Optional(LineHolding(s, f, "Check out our new book"), f);
        Some(Optional(LineHolding(s, g, "cambridge.org"), g))
  }

  /** `Professor\s*\n` and `Harvard Medical School\s*\n`. */
  function LiteralLine(s: string, i: nat, lit: string): (e: Option<nat>)
    requires i <= |s|
    ensures e.Some? ==> i < e.value <= |s|
  {
    if LitAt(s, i, lit) then SpacesThenNewline(s, i + |lit|) else None
  }

  /** `(?:Children's Hospital,?\s*)?`: never fails, takes the greedy run of
      white space after the optional comma. */
  function HospitalPart(s: string, i: nat): (e: nat)
    requires i <= |s|
    ensures i <= e <= |s|
  {
    if LitAt(s, i, "Children's Hospital") then
      var j := i + |"Children's Hospital"|;
      SpaceRunEnd(s, if j < |s| && s[j] == ',' then j + 1 else j)
    else i
  }

  /** `http://klab\.tch\.harvard\.edu/?\s*\n`. */
  function LabLine(s: string, i: nat): (e: Option<nat>)
    requires i <= |s|
    ensures e.Some? ==> i < e.value <= |s|
  {
    if LitAt(s, i, "http://klab.tch.harvard.edu") then
      var j := i + |"http://klab.tch.harvard.edu"|;
      SpacesThenNewline(s, if j < |s| && s[j] == '/' then j + 1 else j)
    else None
  }

  /** `https?://twitter\.com/gkreiman\s*\n`. */
  function TwitterLine(s: string, i: nat): (e: Option<nat>)
    requires i <= |s|
    ensures e.Some? ==> i < e.value <= |s|
  {
    if !LitAt(s, i, "http") then None
    else
      var j := if i + 4 < |s| && LowerChar(s[i + 4]) == 's' then i + 5 else i + 4;
      if LitAt(s, j, "://twitter.com/gkreiman") then SpacesThenNewline(s, j + |"://twitter.com/gkreiman"|)
      else None
  }

  /** Where a match of `p` that starts at `i` ends, if one does. */
  function MatchAt(p: Pattern, s: string, i: nat): (e: Option<nat>)
    requires i <= |s|
    ensures e.Some? ==> i < e.value <= |s|
  {
    match p
    case Confidentiality =>
      if LitAt(s, i, ConfidentialityLead) then Some(NoticeEnd(s, i + |ConfidentialityLead|)) else None
    case Environment =>
      if LitAt(s, i, EnvironmentNotice) then Some(i + |EnvironmentNotice|) else None
    case KreimanSignature =>
      KreimanAt(s, i)
  }

  /** Non-empty spans, in increasing order, not overlapping, inside
      `s[lo..n]`. */
  predicate Ordered(spans: seq<Span>, lo: nat, n: nat)
  {
    (forall k :: 0 <= k < |spans| ==> spans[k].start < spans[k].end <= n)
    && (|spans| > 0 ==> lo <= spans[0].start)
    && (forall k :: 0 < k < |spans| ==> spans[k - 1].end <= spans[k].start)
  }

  /** Where a match would end, for each start position of a text of length
      `n`. */
  predicate IsMatchTable(t: seq<Option<nat>>, n: nat)
  {
    |t| == n && forall q :: 0 <= q < n && t[q].Some? ==> q < t[q].value <= n
  }

  /** What `p` matches at each position of `s`; the scan below consults
      nothing else. */
  function MatchTable(p: Pattern, s: string): (t: seq<Option<nat>>)
    ensures IsMatchTable(t, |s|)
  {
    seq(|s|, i requires 0 <= i < |s| => MatchAt(p, s, i))
  }

  /** `re.finditer` over a match table: try each position from the left;
      after a match, go on from where it ended. */
  function Scan(t: seq<Option<nat>>, pos: nat): (r: seq<Span>)
    requires IsMatchTable(t, |t|) && pos <= |t|
    ensures Ordered(r, pos, |t|)
    decreases |t| - pos
  {
    if pos == |t| then []
    else match t[pos]
      case Some(e) => [Span(pos, e)] + Scan(t, e)
      case None => Scan(t, pos + 1)
  }

  /** `re.finditer(p, s[pos..])`. */
  function FindAll(p: Pattern, s: string, pos: nat): (r: seq<Span>)
    requires pos <= |s|
    ensures Ordered(r, pos, |s|)
  {
    Scan(MatchTable(p, s), pos)
  }

  lemma {:induction false} ScanSound(t: seq<Option<nat>>, pos: nat, k: nat)
    requires IsMatchTable(t, |t|) && pos <= |t|
    requires k < |Scan(t, pos)|
    ensures Scan(t, pos)[k].start < |t| && t[Scan(t, pos)[k].start] == Some(Scan(t, pos)[k].end)
    decreases |t| - pos
  {
    if pos < |t| {
      match t[pos]
      case Some(e) =>
        if k > 0 {
          ScanSound(t, e, k - 1);
        }
      case None =>
        ScanSound(t, pos + 1, k);
    }
  }

  lemma {:induction false} ScanMissesNothing(t: seq<Option<nat>>, pos: nat, q: nat)
    requires IsMatchTable(t, |t|) && pos <= q < |t|
    requires forall k :: 0 <= k < |Scan(t, pos)| ==> !(Scan(t, pos)[k].start <= q < Scan(t, pos)[k].end)
    ensures t[q].None?
    decreases |t| - pos
  {
    var found := Scan(t, pos);
    match t[pos]
    case Some(e) =>
      assert found == [Span(pos, e)] + Scan(t, e);
      assert !(found[0].start <= q < found[0].end);
      var rest := Scan(t, e);
      forall k | 0 <= k < |rest|
        ensures !(rest[k].start <= q < rest[k].end)
      {
        assert rest[k] == found[k + 1];
      }
      ScanMissesNothing(t, e, q);
    case None =>
      if q > pos {
        ScanMissesNothing(t, pos + 1, q);
      }
  }

  /** Every span found is a match of the pattern. */
  lemma FindAllSound(p: Pattern, s: string, pos: nat, k: nat)
    requires pos <= |s|
    requires k < |FindAll(p, s, pos)|
    ensures MatchAt(p, s, FindAll(p, s, pos)[k].start) == Some(FindAll(p, s, pos)[k].end)
  {
    var t := MatchTable(p, s);
    ScanSound(t, pos, k);
    var span := Scan(t, pos)[k];
    assert t[span.start] == MatchAt(p, s, span.start);
  }

  /** No match starts at a position outside every span found: the engine
      tried it and failed. */
  lemma FindAllMissesNothing(p: Pattern, s: string, pos: nat, q: nat)
    requires pos <= q < |s|
    requires forall k :: 0 <= k < |FindAll(p, s, pos)| ==>
               !(FindAll(p, s, pos)[k].start <= q < FindAll(p, s, pos)[k].end)
    ensures MatchAt(p, s, q).None?
  {
    var t := MatchTable(p, s);
    var found := FindAll(p, s, pos);
    assert found == Scan(t, pos);
    ScanMissesNothing(t, pos, q);
    assert t[q] == MatchAt(p, s, q);
  }

  /** The text from `pos` on with every span in `spans` replaced by `rep`. */
  function Spliced(s: string, spans: seq<Span>, rep: string, pos: nat): string
    requires pos <= |s| && Ordered(spans, pos, |s|)
    decreases |spans|
  {
    if spans == [] then s[pos..]
    else s[pos..spans[0].start] + rep + Spliced(s, spans[1..], rep, spans[0].end)
  }

  /** The first match left in place, every later one replaced by `rep`. */
  function KeepFirst(s: string, spans: seq<Span>, rep: string): string
    requires Ordered(spans, 0, |s|)
  {
    if |spans| <= 1 then s
    else s[..spans[0].end] + Spliced(s, spans[1..], rep, spans[0].end)
  }

  /** What `clean_boilerplate` and `clean_signatures` do with one pattern. */
  function KeepFirstMatch(p: Pattern, s: string, rep: string): string
  {
    KeepFirst(s, FindAll(p, s, 0), rep)
  }

  /** A suffix of ordered spans is ordered from where the span before it
      ends. */
  lemma OrderedSuffix(spans: seq<Span>, n: nat, k: nat)
    requires Ordered(spans, 0, n) && 1 <= k <= |spans|
    ensures Ordered(spans[k..], spans[k - 1].end, n)
  {
    var rest := spans[k..];
    forall j | 0 < j < |rest|
      ensures rest[j - 1].end <= rest[j].start
    {
      assert rest[j - 1] == spans[k + j - 1] && rest[j] == spans[k + j];
    }
  }

  /** The text as the loop has rebuilt it once the spans from the `k`-th on
      are replaced. */
  function Rebuilt(text: string, matches: seq<Span>, rep: string, k: nat): (r: string)
    requires Ordered(matches, 0, |text|) && 1 <= k <= |matches|
    ensures |r| >= matches[k - 1].end
  {
    OrderedSuffix(matches, |text|, k);
    text[..matches[k - 1].end] + Spliced(text, matches[k..], rep, matches[k - 1].end)
  }

  /** The source's loop: collect the matches, then from the last to the
      second rebuild the text around each one. Every later match lies to the
      right of the part already rebuilt, so the earlier offsets stay valid. */
  method KeepFirstOccurrence(p: Pattern, text: string, rep: string) returns (r: string)
    ensures r == KeepFirstMatch(p, text, rep)
  {
    var matches := FindAll(p, text, 0);
    r := text;
    if |matches| > 1 {
      var k := |matches|;
      RebuiltNothing(text, matches, rep);
      while k > 1
        invariant 1 <= k <= |matches|
        invariant r == Rebuilt(text, matches, rep, k)
      {
        var m := matches[k - 1];
        SpliceStep(text, matches, rep, k);
        r := r[..m.start] + rep + r[m.end..];
        k := k - 1;
      }
    }
  }

  /** Before the loop nothing is replaced. */
  lemma RebuiltNothing(text: string, matches: seq<Span>, rep: string)
    requires Ordered(matches, 0, |text|) && |matches| >= 1
    ensures Rebuilt(text, matches, rep, |matches|) == text
  {
    var end := matches[|matches| - 1].end;
    assert matches[|matches|..] == [];
    assert text[..end] + text[end..] == text;
  }

  /** One turn of the loop: rebuilding around match `k - 1` extends the
      spliced tail by that match. */
  lemma SpliceStep(text: string, matches: seq<Span>, rep: string, k: nat)
    requires Ordered(matches, 0, |text|) && 2 <= k <= |matches|
    ensures var m := matches[k - 1];
            var r := Rebuilt(text, matches, rep, k);
            r[..m.start] + rep + r[m.end..] == Rebuilt(text, matches, rep, k - 1)
  {
    var m := matches[k - 1];
    var prev := matches[k - 2];
    OrderedSuffix(matches, |text|, k);
    OrderedSuffix(matches, |text|, k - 1);
    var tail := Spliced(text, matches[k..], rep, m.end);
    var r := text[..m.end] + tail;
    assert r[..m.start] == text[..m.start];
    assert r[m.end..] == tail;
    assert matches[k - 1..][1..] == matches[k..];
    assert text[..prev.end] + text[prev.end..m.start] == text[..m.start];
  }

  function SpanLengths(spans: seq<Span>): int
  {
    if spans == [] then 0 else (spans[0].end - spans[0].start) + SpanLengths(spans[1..])
  }

  /** Each later span gives up its own length and gains the replacement's. */
  lemma {:induction false} SplicedLength(s: string, spans: seq<Span>, rep: string, pos: nat)
    requires pos <= |s| && Ordered(spans, pos, |s|)
    ensures |Spliced(s, spans, rep, pos)| == |s| - pos - SpanLengths(spans) + |spans| * |rep|
    decreases |spans|
  {
    if spans != [] {
      var rest := spans[1..];
      SplicedLength(s, rest, rep, spans[0].end);
      assert |Spliced(s, spans, rep, pos)|
          == (spans[0].start - pos) + |rep| + |Spliced(s, rest, rep, spans[0].end)|;
      assert |spans| * |rep| == |rest| * |rep| + |rep| by {
        MultiplySucc(|rest|, |rep|);
      }
    }
  }

  lemma MultiplySucc(a: nat, b: nat)
    ensures (a + 1) * b == a * b + b
  {
  }

  lemma KeepFirstLength(s: string, spans: seq<Span>, rep: string)
    requires Ordered(spans, 0, |s|) && |spans| >= 2
    ensures |KeepFirst(s, spans, rep)| == |s| - SpanLengths(spans[1..]) + (|spans| - 1) * |rep|
  {
    SplicedLength(s, spans[1..], rep, spans[0].end);
  }
}
