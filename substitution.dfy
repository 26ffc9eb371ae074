/** `re.sub(pattern, replacement, text)` for the substitutions of
    email_selector_ui/clean_emails.py that this model states character by
    character. The engine tries each position from the left; at a match it
    emits the replacement and resumes after the match, otherwise it copies one
    character. None of these patterns matches the empty string. */
module Substitution {
  import opened Text

  /** A match found at some position: where it ends, and what replaces it. */
  datatype Hit = Hit(end: nat, rep: string)

  datatype Sub =
    | LongLink               // line 127: `\[([^\]]+)\]\([^)]{80,}\)` -> `\1`
    | BracketRef(opener: string)  // lines 150, 152: `\[image: [^\]]+\]`, `\[cid:[^\]]+\]` -> "[Image]"
    | CidImage               // line 151: `!\[[^\]]*\]\(cid:[^)]+\)` -> "[Image]"
    | NumericRef             // line 424: `&#\d+;` -> ""
    | SpacerLine             // line 346: `\n[\s‌​]+\n` -> "\n"
    | ZeroWidthRun           // line 347: `(‌\s*)+` -> ""

  const ImageMarker: string := "[Image]"
  const MinLinkTarget: nat := 80
  const ZeroWidthSpace: char := '\U{200B}'
  const ZeroWidthNonJoiner: char := '\U{200C}'

  /** Characters a replacement may hold that need not come from the text. */
  function Inserted(sub: Sub): set<char>
  {
    match sub
    case BracketRef(_) => set c | c in ImageMarker
    case CidImage => set c | c in ImageMarker
    case SpacerLine => {'\n'}
    case _ => {}
  }

  /** Markdown link with a target of at least 80 characters: the label
      (everything up to the first `]`, at least one character) is kept. */
  function LongLinkAt(s: string, i: nat): (h: Option<Hit>)
    requires i < |s|
    ensures h.Some? ==> i < h.value.end <= |s|
    ensures h.Some? ==> forall c :: c in h.value.rep ==> c in s
  {
    if s[i] != '[' then None
    else
      var j := IndexFrom(s, ']', i + 1);
      if j == i + 1 || j + 1 >= |s| || s[j + 1] != '(' then None
      else
        var k := IndexFrom(s, ')', j + 2);
        if k == |s| || k - (j + 2) < MinLinkTarget then None
        else Some(Hit(k + 1, s[i + 1..j]))
  }

  /** `opener`, then at least one character other than `]`, then `]`. */
  function BracketRefAt(s: string, i: nat, opener: string): (h: Option<Hit>)
    requires i < |s|
    ensures h.Some? ==> i < h.value.end <= |s| && h.value.rep == ImageMarker
  {
    if |opener| == 0 || !(opener <= s[i..]) then None
    else
      var j := IndexFrom(s, ']', i + |opener|);
      if j == |s| || j == i + |opener| then None else Some(Hit(j + 1, ImageMarker))
  }

  /** `![alt](cid:...)`: the alternative text may be empty, the content id
      may not. */
  function CidImageAt(s: string, i: nat): (h: Option<Hit>)
    requires i < |s|
    ensures h.Some? ==> i < h.value.end <= |s| && h.value.rep == ImageMarker
  {
    if !("![" <= s[i..]) then None
    else
      var j := IndexFrom(s, ']', i + 2);
      if j == |s| || !("](cid:" <= s[j..]) then None
      else
        var k := IndexFrom(s, ')', j + 6);
        if k == |s| || k == j + 6 then None else Some(Hit(k + 1, ImageMarker))
  }

  /** End of the run of ASCII digits starting at `i`. */
  function DigitRunEnd(s: string, i: nat): (j: nat)
    requires i <= |s|
    ensures i <= j <= |s| && (j == |s| || !IsDigit(s[j]))
    decreases |s| - i
  {
    if i < |s| && IsDigit(s[i]) then DigitRunEnd(s, i + 1) else i
  }

  lemma {:induction false} DigitRunEndIs(s: string, i: nat, j: nat)
    requires i <= j <= |s| && (j == |s| || !IsDigit(s[j]))
    requires forall k :: i <= k < j ==> IsDigit(s[k])
    ensures DigitRunEnd(s, i) == j
    decreases j - i
  {
    if i < j {
      DigitRunEndIs(s, i + 1, j);
    }
  }

  /** `&#`, one or more digits, `;`. */
  function NumericRefAt(s: string, i: nat): (h: Option<Hit>)
    requires i < |s|
    ensures h.Some? ==> i < h.value.end <= |s| && h.value.rep == []
  {
    if !("&#" <= s[i..]) then None
    else
      var d := DigitRunEnd(s, i + 2);
      if d == i + 2 || d == |s| || s[d] != ';' then None else Some(Hit(d + 1, []))
  }

  /** The character class of line 346: white space and two zero-width
      characters. */
  predicate IsSpacer(c: char)
  {
    IsSpace(c) || c == ZeroWidthSpace || c == ZeroWidthNonJoiner
  }

  function SpacerRunEnd(s: string, i: nat): (j: nat)
    requires i <= |s|
    ensures i <= j <= |s| && (j == |s| || !IsSpacer(s[j]))
    decreases |s| - i
  {
    if i < |s| && IsSpacer(s[i]) then SpacerRunEnd(s, i + 1) else i
  }

  lemma {:induction false} SpacerRunEndIs(s: string, i: nat, j: nat)
    requires i <= j <= |s| && (j == |s| || !IsSpacer(s[j]))
    requires forall k :: i <= k < j ==> IsSpacer(s[k])
    ensures SpacerRunEnd(s, i) == j
    decreases j - i
  {
    if i < j {
      SpacerRunEndIs(s, i + 1, j);
    }
  }

  /** A line break, a greedy run of spacer characters, a line break: the run
      gives back characters until it ends just before a line break, so the
      match ends after the last line break of the run that leaves at least
      one spacer character in between. */
  function SpacerLineAt(s: string, i: nat): (h: Option<Hit>)
    requires i < |s|
    ensures h.Some? ==> i < h.value.end <= |s| && h.value.rep == "\n"
  {
    if s[i] != '\n' || i + 2 > |s| then None
    else
      var j := SpacerRunEnd(s, i + 1);
      if j < i + 2 then None
      else match LastNewline(s, i + 2, j)
        case Some(k) => Some(Hit(k + 1, "\n"))
        case None => None
  }

  /** After a zero-width non-joiner and the white space following it, one
      more repetition when another non-joiner comes next. */
  function ZeroWidthRunEnd(s: string, i: nat): (j: nat)
    requires i < |s| && s[i] == ZeroWidthNonJoiner
    ensures i < j <= |s|
    decreases |s| - i
  {
    var j := SpaceRunEnd(s, i + 1);
    if j < |s| && s[j] == ZeroWidthNonJoiner then ZeroWidthRunEnd(s, j) else j
  }

  function ZeroWidthRunAt(s: string, i: nat): (h: Option<Hit>)
    requires i < |s|
    ensures h.Some? ==> i < h.value.end <= |s| && h.value.rep == []
  {
    if s[i] == ZeroWidthNonJoiner then Some(Hit(ZeroWidthRunEnd(s, i), [])) else None
  }

  function SubAt(sub: Sub, s: string, i: nat): (h: Option<Hit>)
    requires i < |s|
    ensures h.Some? ==> i < h.value.end <= |s|
  {
    match sub
    case LongLink => LongLinkAt(s, i)
    case BracketRef(opener) => BracketRefAt(s, i, opener)
    case CidImage => CidImageAt(s, i)
    case NumericRef => NumericRefAt(s, i)
    case SpacerLine => SpacerLineAt(s, i)
    case ZeroWidthRun => ZeroWidthRunAt(s, i)
  }

  /** What the pattern matches at each position of a text of length `n`. */
  predicate IsHitTable(hits: seq<Option<Hit>>, n: nat)
  {
    |hits| == n && forall q :: 0 <= q < n && hits[q].Some? ==> q < hits[q].value.end <= n
  }

  function HitsOf(sub: Sub, s: string): (hits: seq<Option<Hit>>)
    ensures IsHitTable(hits, |s|)
  {
    seq(|s|, q requires 0 <= q < |s| => SubAt(sub, s, q))
  }

  /** The engine's scan, given what matches where. */
  function Rewrite(s: string, hits: seq<Option<Hit>>, pos: nat): string
    requires IsHitTable(hits, |s|) && pos <= |s|
    decreases |s| - pos
  {
    if pos == |s| then []
    else match hits[pos]
      case Some(h) => h.rep + Rewrite(s, hits, h.end)
      case None => [s[pos]] + Rewrite(s, hits, pos + 1)
  }

  function SubstituteFrom(sub: Sub, s: string, pos: nat): string
    requires pos <= |s|
  {
    Rewrite(s, HitsOf(sub, s), pos)
  }

  function Substitute(sub: Sub, s: string): string
  {
    SubstituteFrom(sub, s, 0)
  }

  lemma {:induction false} RewriteNowhere(s: string, hits: seq<Option<Hit>>, pos: nat)
    requires IsHitTable(hits, |s|) && pos <= |s|
    requires forall q :: pos <= q < |s| ==> hits[q].None?
    ensures Rewrite(s, hits, pos) == s[pos..]
    decreases |s| - pos
  {
    if pos < |s| {
      RewriteNowhere(s, hits, pos + 1);
      assert s[pos..] == [s[pos]] + s[pos + 1..];
    }
  }

  /** Positions where nothing matches are copied as they are. */
  lemma {:induction false} RewriteCopies(s: string, hits: seq<Option<Hit>>, pos: nat, i: nat)
    requires IsHitTable(hits, |s|) && pos <= i <= |s|
    requires forall q :: pos <= q < i ==> hits[q].None?
    ensures Rewrite(s, hits, pos) == s[pos..i] + Rewrite(s, hits, i)
    decreases i - pos
  {
    if pos < i {
      RewriteCopies(s, hits, pos + 1, i);
      RewriteCopyOne(s, hits, pos);
      ConsSlice(s, pos, i, Rewrite(s, hits, i));
    } else {
      assert s[pos..i] == [];
    }
  }

  lemma RewriteCopyOne(s: string, hits: seq<Option<Hit>>, pos: nat)
    requires IsHitTable(hits, |s|) && pos < |s| && hits[pos].None?
    ensures Rewrite(s, hits, pos) == [s[pos]] + Rewrite(s, hits, pos + 1)
  {
  }

  lemma ConsSlice(s: string, pos: nat, i: nat, tail: string)
    requires pos < i <= |s|
    ensures [s[pos]] + (s[pos + 1..i] + tail) == s[pos..i] + tail
  {
    assert s[pos..i] == [s[pos]] + s[pos + 1..i];
  }

  lemma RewriteUpTo(s: string, hits: seq<Option<Hit>>, pos: nat, i: nat)
    requires IsHitTable(hits, |s|) && pos <= i < |s|
    requires forall q :: pos <= q < i ==> hits[q].None?
    requires hits[i].Some?
    ensures Rewrite(s, hits, pos) == s[pos..i] + hits[i].value.rep + Rewrite(s, hits, hits[i].value.end)
  {
    RewriteCopies(s, hits, pos, i);
  }

  lemma {:induction false} RewriteChars(s: string, hits: seq<Option<Hit>>, pos: nat, extra: set<char>, c: char)
    requires IsHitTable(hits, |s|) && pos <= |s|
    requires forall q :: 0 <= q < |s| && hits[q].Some? ==> forall d :: d in hits[q].value.rep ==> d in s || d in extra
    requires c in Rewrite(s, hits, pos)
    ensures c in s || c in extra
    decreases |s| - pos
  {
    if pos < |s| {
      match hits[pos]
      case Some(h) =>
        if c !in h.rep {
          RewriteChars(s, hits, h.end, extra, c);
        }
      case None =>
        if c != s[pos] {
          RewriteChars(s, hits, pos + 1, extra, c);
        }
    }
  }

  /** Where the pattern matches nowhere, the text is unchanged. */
  lemma SubstituteNowhere(sub: Sub, s: string, pos: nat)
    requires pos <= |s|
    requires forall q :: pos <= q < |s| ==> SubAt(sub, s, q).None?
    ensures SubstituteFrom(sub, s, pos) == s[pos..]
  {
    RewriteNowhere(s, HitsOf(sub, s), pos);
  }

  /** Up to the first match the text is copied; the match becomes its
      replacement; the engine resumes after it. */
  lemma SubstituteFirstHit(sub: Sub, s: string, i: nat, h: Hit)
    requires i < |s|
    requires forall q :: 0 <= q < i ==> SubAt(sub, s, q).None?
    requires SubAt(sub, s, i) == Some(h)
    ensures Substitute(sub, s) == s[..i] + h.rep + SubstituteFrom(sub, s, h.end)
  {
    var hits := HitsOf(sub, s);
    assert forall q :: 0 <= q < i ==> hits[q].None?;
    RewriteUpTo(s, hits, 0, i);
  }

  /** A replacement brings in no character other than those of the text and
      the fixed characters of its replacement. */
  lemma SubstituteChars(sub: Sub, s: string, c: char)
    requires c in Substitute(sub, s)
    ensures c in s || c in Inserted(sub)
  {
    var hits := HitsOf(sub, s);
    forall q | 0 <= q < |s| && hits[q].Some?
      ensures forall d :: d in hits[q].value.rep ==> d in s || d in Inserted(sub)
    {
      HitChars(sub, s, q);
    }
    RewriteChars(s, hits, 0, Inserted(sub), c);
  }

  lemma HitChars(sub: Sub, s: string, i: nat)
    requires i < |s| && SubAt(sub, s, i).Some?
    ensures forall d :: d in SubAt(sub, s, i).value.rep ==> d in s || d in Inserted(sub)
  {
    if sub.LongLink? {
      var j := IndexFrom(s, ']', i + 1);
      assert SubAt(sub, s, i).value.rep == s[i + 1..j];
    }
  }

  /** Line 347 can only act on a zero-width non-joiner; once those are gone
      (line 339 removes them) it changes nothing. */
  lemma ZeroWidthRunsIdle(s: string)
    requires ZeroWidthNonJoiner !in s
    ensures Substitute(ZeroWidthRun, s) == s
  {
    SubstituteNowhere(ZeroWidthRun, s, 0);
  }

  /** A line made only of spacer characters (no line break among them)
      between two line breaks is dropped with one of the breaks, when the
      next line starts with a visible character. */
  lemma SpacerLineRemoved(x: string, run: string, y: string)
    requires run != [] && forall k :: 0 <= k < |run| ==> IsSpacer(run[k]) && run[k] != '\n'
    requires y == [] || !IsSpacer(y[0])
    requires '\n' !in x
    ensures var s := x + "\n" + run + "\n" + y;
            Substitute(SpacerLine, s) == x + "\n" + SubstituteFrom(SpacerLine, s, |x| + |run| + 2)
  {
    var s := x + "\n" + run + "\n" + y;
    var h := Hit(|x| + |run| + 2, "\n");
    assert forall q :: 0 <= q < |x| ==> SubAt(SpacerLine, s, q).None? by {
      NoSpacerLineWithoutBreak(x, "\n" + run + "\n" + y);
      assert s == x + ("\n" + run + "\n" + y);
    }
    assert SubAt(SpacerLine, s, |x|) == Some(h) by {
      SpacerLineMatches(x, run, y);
    }
    SubstituteFirstHit(SpacerLine, s, |x|, h);
    assert s[..|x|] == x;
  }

  /** A match of line 346 starts on a line break. */
  lemma NoSpacerLineWithoutBreak(x: string, rest: string)
    requires '\n' !in x
    ensures forall q :: 0 <= q < |x| ==> SubAt(SpacerLine, x + rest, q).None?
  {
    forall q | 0 <= q < |x|
      ensures SubAt(SpacerLine, x + rest, q).None?
    {
      assert (x + rest)[q] == x[q];
    }
  }

  lemma SpacerLineMatches(x: string, run: string, y: string)
    requires run != [] && forall k :: 0 <= k < |run| ==> IsSpacer(run[k]) && run[k] != '\n'
    requires y == [] || !IsSpacer(y[0])
    ensures var s := x + "\n" + run + "\n" + y;
            SpacerLineAt(s, |x|) == Some(Hit(|x| + |run| + 2, "\n"))
  {
    var s := x + "\n" + run + "\n" + y;
    var i := |x|;
    var j := SpacerRunEnd(s, i + 1);
    assert s[i + 1 + |run|] == '\n';
    assert j == i + |run| + 2 by {
      assert forall k :: i + 1 <= k < i + |run| + 2 ==> IsSpacer(s[k]);
      if y != [] {
        assert s[i + |run| + 2] == y[0];
      }
      SpacerRunEndIs(s, i + 1, i + |run| + 2);
    }
    LastNewlineIs(s, i + 2, j, i + |run| + 1);
  }
}
