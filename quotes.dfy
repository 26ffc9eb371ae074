/** `simplify_quoted_replies` (email_selector_ui/clean_emails.py:374-399):
    lines quoted once or not at all are kept; each run of lines quoted twice
    or more becomes one marker line. */
module Quotes {
  import opened Text

  const TruncationMarker: string := "[Previous messages truncated]"

  /** Lines 385-389: the number of leading `>`, white space before and
      between them skipped. */
  function QuoteDepth(line: string): nat
    decreases |line|
  {
    var t := LStrip(line);
    if t != [] && t[0] == '>' then 1 + QuoteDepth(t[1..]) else 0
  }

  lemma LStripIdempotent(s: string)
    ensures LStrip(LStrip(s)) == LStrip(s)
  {
    LStripDropsLeadingSpace(s);
  }

  /** The depth only looks past leading white space. */
  lemma QuoteDepthStripped(s: string)
    ensures QuoteDepth(LStrip(s)) == QuoteDepth(s)
  {
    LStripIdempotent(s);
  }

  /** The source's inner loop. */
  method CountQuoteDepth(line: string) returns (depth: nat)
    ensures depth == QuoteDepth(line)
  {
    var stripped := LStrip(line);
    depth := 0;
    QuoteDepthStripped(line);
    LStripIdempotent(line);
    while |stripped| > 0 && stripped[0] == '>'
      invariant depth + QuoteDepth(stripped) == QuoteDepth(line)
      invariant LStrip(stripped) == stripped
      decreases |stripped|
    {
      QuoteDepthStripped(stripped[1..]);
      LStripIdempotent(stripped[1..]);
      depth := depth + 1;
      stripped := LStrip(stripped[1..]);
    }
  }

  /** The output lines, given whether the previous input line was inside a
      deep quote. */
  function Simplified(lines: seq<string>, inDeep: bool): seq<string>
    decreases |lines|
  {
    if lines == [] then []
    else if QuoteDepth(lines[0]) <= 1 then [lines[0]] + Simplified(lines[1..], false)
    else if !inDeep then [TruncationMarker] + Simplified(lines[1..], true)
    else Simplified(lines[1..], true)
  }

  function SimplifyQuotedReplies(text: string): string
  {
    Unlines(Simplified(Lines(text), false))
  }

  /** The source's loop over the lines. */
  method RunSimplifyQuotedReplies(text: string) returns (r: string)
    ensures r == SimplifyQuotedReplies(text)
  {
    var lines := Lines(text);
    var result: seq<string> := [];
    var inDeepQuote := false;
    var i := 0;
    while i < |lines|
      invariant 0 <= i <= |lines|
      invariant result + Simplified(lines[i..], inDeepQuote) == Simplified(lines, false)
    {
      var currentDepth := CountQuoteDepth(lines[i]);
      SimplifiedStep(lines, i, inDeepQuote, result, currentDepth);
      if currentDepth <= 1 {
        result := result + [lines[i]];
        inDeepQuote := false;
      } else if !inDeepQuote {
        result := result + [TruncationMarker];
        inDeepQuote := true;
      }
      i := i + 1;
    }
    assert lines[i..] == [];
    assert result + [] == result;
    r := Unlines(result);
  }

  /** One turn of the loop over the lines keeps its invariant. */
  lemma SimplifiedStep(lines: seq<string>, i: nat, inDeep: bool, result: seq<string>, depth: nat)
    requires i < |lines| && depth == QuoteDepth(lines[i])
    requires result + Simplified(lines[i..], inDeep) == Simplified(lines, false)
    ensures (if depth <= 1 then result + [lines[i]]
             else if !inDeep then result + [TruncationMarker] else result)
            + Simplified(lines[i + 1..], depth > 1)
         == Simplified(lines, false)
  {
    assert lines[i..][1..] == lines[i + 1..];
    var rest := Simplified(lines[i + 1..], depth > 1);
    if depth <= 1 {
      assert Simplified(lines[i..], inDeep) == [lines[i]] + rest;
      assert result + [lines[i]] + rest == result + ([lines[i]] + rest);
    } else if !inDeep {
      assert Simplified(lines[i..], inDeep) == [TruncationMarker] + rest;
      assert result + [TruncationMarker] + rest == result + ([TruncationMarker] + rest);
    }
  }

  lemma MarkerIsShallow()
    ensures QuoteDepth(TruncationMarker) == 0
  {
    assert LStrip(TruncationMarker) == TruncationMarker;
  }

  /** No line of the output is quoted twice or more. */
  lemma {:induction false} SimplifiedShallow(lines: seq<string>, inDeep: bool, l: string)
    requires l in Simplified(lines, inDeep)
    ensures QuoteDepth(l) <= 1
    decreases |lines|
  {
    MarkerIsShallow();
    if lines != [] {
      var rest := lines[1..];
      if QuoteDepth(lines[0]) <= 1 {
        if l != lines[0] {
          SimplifiedShallow(rest, false, l);
        }
      } else if !inDeep {
        if l != TruncationMarker {
          SimplifiedShallow(rest, true, l);
        }
      } else {
        SimplifiedShallow(rest, true, l);
      }
    }
  }

  /** Every output line is an input line or the marker. */
  lemma {:induction false} SimplifiedFrom(lines: seq<string>, inDeep: bool, l: string)
    requires l in Simplified(lines, inDeep)
    ensures l in lines || l == TruncationMarker
    decreases |lines|
  {
    if lines != [] && l != lines[0] && l != TruncationMarker {
      SimplifiedFrom(lines[1..], QuoteDepth(lines[0]) > 1, l);
    }
  }

  /** The output never has more lines than the input. */
  lemma {:induction false} SimplifiedShorter(lines: seq<string>, inDeep: bool)
    ensures |Simplified(lines, inDeep)| <= |lines|
    decreases |lines|
  {
    if lines != [] {
      SimplifiedShorter(lines[1..], QuoteDepth(lines[0]) > 1);
    }
  }

  /** Lines quoted at most once all survive, in order: such a text is left
      as it is. */
  lemma {:induction false} SimplifiedKeepsShallow(lines: seq<string>, inDeep: bool)
    requires forall k :: 0 <= k < |lines| ==> QuoteDepth(lines[k]) <= 1
    ensures Simplified(lines, inDeep) == lines
    decreases |lines|
  {
    if lines != [] {
      SimplifiedKeepsShallow(lines[1..], false);
    }
  }

  /** Whether the scan is inside a deep quote after `lines`. */
  function EndsDeep(lines: seq<string>, inDeep: bool): bool
  {
    if lines == [] then inDeep else QuoteDepth(lines[|lines| - 1]) > 1
  }

  /** The scan of a concatenation is the scan of the first part, then of the
      second part from the state the first part ends in. */
  lemma {:induction false} SimplifiedAppend(a: seq<string>, b: seq<string>, inDeep: bool)
    ensures Simplified(a + b, inDeep) == Simplified(a, inDeep) + Simplified(b, EndsDeep(a, inDeep))
    decreases |a|
  {
    if a == [] {
      assert a + b == b;
    } else {
      var first, rest := a[0], a[1..];
      var next := QuoteDepth(first) > 1;
      var head := if !next then [first] else if !inDeep then [TruncationMarker] else [];
      calc {
        Simplified(a + b, inDeep);
      == { assert a + b == [first] + (rest + b); SimplifiedCons(first, rest + b, inDeep); }
        head + Simplified(rest + b, next);
      == { SimplifiedAppend(rest, b, next); }
        head + (Simplified(rest, next) + Simplified(b, EndsDeep(rest, next)));
      == { assert EndsDeep(rest, next) == EndsDeep(a, inDeep); }
        head + Simplified(rest, next) + Simplified(b, EndsDeep(a, inDeep));
      == { assert a == [first] + rest; SimplifiedCons(first, rest, inDeep); }
        Simplified(a, inDeep) + Simplified(b, EndsDeep(a, inDeep));
      }
    }
  }

  /** What the scan emits for one line, and the state it moves to. */
  lemma SimplifiedCons(line: string, rest: seq<string>, inDeep: bool)
    ensures Simplified([line] + rest, inDeep)
         == (if QuoteDepth(line) <= 1 then [line] else if !inDeep then [TruncationMarker] else [])
            + Simplified(rest, QuoteDepth(line) > 1)
  {
    assert ([line] + rest)[1..] == rest;
  }

  /** Inside a deep quote, further deep lines add nothing. */
  lemma {:induction false} DeepRunSilent(run: seq<string>)
    requires forall k :: 0 <= k < |run| ==> QuoteDepth(run[k]) > 1
    ensures Simplified(run, true) == []
    decreases |run|
  {
    if run != [] {
      DeepRunSilent(run[1..]);
    }
  }

  /** A maximal run of lines quoted twice or more, between lines quoted at
      most once, becomes exactly one marker line. */
  lemma DeepRunCollapses(a: seq<string>, run: seq<string>, b: seq<string>)
    requires a == [] || QuoteDepth(a[|a| - 1]) <= 1
    requires run != [] && forall k :: 0 <= k < |run| ==> QuoteDepth(run[k]) > 1
    requires b == [] || QuoteDepth(b[0]) <= 1
    ensures Simplified(a + run + b, false)
         == Simplified(a, false) + [TruncationMarker] + Simplified(b, false)
  {
    SimplifiedAppend(a + run, b, false);
    SimplifiedAppend(a, run, false);
    assert !EndsDeep(a, false);
    DeepRunSilent(run[1..]);
    assert Simplified(run, false) == [TruncationMarker];
    assert EndsDeep(a + run, false);
    if b != [] {
      assert Simplified(b, true) == Simplified(b, false);
    }
  }

  /** Applying the stage twice is applying it once. */
  lemma SimplifyIdempotent(text: string)
    ensures SimplifyQuotedReplies(SimplifyQuotedReplies(text)) == SimplifyQuotedReplies(text)
  {
    var lines := Lines(text);
    LinesHaveNoNewline(text);
    var out := SimplifiedClean(lines);
    LinesUnlines(out);
    SimplifiedKeepsShallow(out, false);
  }

  /** The output of a scan over newline-free lines is a non-empty list of
      newline-free lines quoted at most once. */
  lemma SimplifiedClean(lines: seq<string>) returns (out: seq<string>)
    requires |lines| >= 1 && forall l :: l in lines ==> '\n' !in l
    ensures out == Simplified(lines, false) && |out| >= 1
    ensures forall k :: 0 <= k < |out| ==> '\n' !in out[k] && QuoteDepth(out[k]) <= 1
  {
    out := Simplified(lines, false);
    forall k | 0 <= k < |out|
      ensures '\n' !in out[k] && QuoteDepth(out[k]) <= 1
    {
      SimplifiedLineClean(lines, out[k]);
    }
  }

  lemma SimplifiedLineClean(lines: seq<string>, l: string)
    requires forall l :: l in lines ==> '\n' !in l
    requires l in Simplified(lines, false)
    ensures '\n' !in l && QuoteDepth(l) <= 1
  {
    SimplifiedFrom(lines, false, l);
    SimplifiedShallow(lines, false, l);
    if l == TruncationMarker {
      MarkerHasNoNewline();
    }
  }

  lemma MarkerHasNoNewline()
    ensures '\n' !in TruncationMarker
  {
  }
}
