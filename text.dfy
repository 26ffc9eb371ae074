/** String helpers shared by the cleaning pipeline, the samplers and the record
    merger. Strings are sequences of characters; Python's `str.strip`,
    `str.split`, `str.join`, `str.replace` and `str.lower` are given here as
    functions with the same behaviour on the inputs the program can see.
    Letter case is ASCII only. */
module Text {

  datatype Option<T> = None | Some(value: T)

  /** Python's `str.isspace()`, which is also what `\s` matches in a `str`
      pattern and what `str.strip()` with no argument removes. */
  predicate IsSpace(c: char)
  {
    c == ' ' || c == '\t' || c == '\n' || c == '\r' || c == '\U{000B}' || c == '\U{000C}'
    || ('\U{001C}' <= c <= '\U{001F}') || c == '\U{0085}' || c == '\U{00A0}' || c == '\U{1680}'
    || ('\U{2000}' <= c <= '\U{200A}') || c == '\U{2028}' || c == '\U{2029}' || c == '\U{202F}'
    || c == '\U{205F}' || c == '\U{3000}'
  }

  predicate IsDigit(c: char)
  {
    '0' <= c <= '9'
  }

  /** `str.lstrip()`. */
  function LStrip(s: string): (r: string)
    ensures |r| <= |s|
  {
    if s != [] && IsSpace(s[0]) then LStrip(s[1..]) else s
  }

  /** `str.rstrip()`. */
  function RStrip(s: string): (r: string)
    ensures |r| <= |s|
  {
    if s != [] && IsSpace(s[|s| - 1]) then RStrip(s[..|s| - 1]) else s
  }

  /** `lstrip` drops the leading run of white space and nothing else. */
  lemma {:induction false} LStripDropsLeadingSpace(s: string)
    ensures |LStrip(s)| <= |s| && LStrip(s) == s[|s| - |LStrip(s)|..]
    ensures forall i :: 0 <= i < |s| - |LStrip(s)| ==> IsSpace(s[i])
    ensures LStrip(s) == [] || !IsSpace(LStrip(s)[0])
    decreases |s|
  {
    if s != [] && IsSpace(s[0]) {
      LStripDropsLeadingSpace(s[1..]);
    }
  }

  /** `rstrip` drops the trailing run of white space and nothing else. */
  lemma {:induction false} RStripDropsTrailingSpace(s: string)
    ensures |RStrip(s)| <= |s| && RStrip(s) == s[..|RStrip(s)|]
    ensures forall i :: |RStrip(s)| <= i < |s| ==> IsSpace(s[i])
    ensures RStrip(s) == [] || !IsSpace(RStrip(s)[|RStrip(s)| - 1])
    decreases |s|
  {
    if s != [] && IsSpace(s[|s| - 1]) {
      RStripDropsTrailingSpace(s[..|s| - 1]);
    }
  }

  /** `str.strip()`. */
  function Strip(s: string): string
  {
    RStrip(LStrip(s))
  }

  function LowerChar(c: char): char
  {
    if 'A' <= c <= 'Z' then (c as int + 32) as char else c
  }

  /** `str.lower()` on ASCII letters. */
  function Lower(s: string): (r: string)
    ensures |r| == |s|
  {
    seq(|s|, i requires 0 <= i < |s| => LowerChar(s[i]))
  }

  /** `t in s` for strings: `t` occurs in `s` as a contiguous piece. */
  predicate Contains(s: string, t: string)
    decreases |s|
  {
    t <= s || (s != [] && Contains(s[1..], t))
  }

  /** Case-insensitive occurrence, as `re.IGNORECASE` sees a literal. */
  predicate ContainsCI(s: string, t: string)
  {
    Contains(Lower(s), Lower(t))
  }

  /** A case-insensitive match of `t` at the very start of `s`. */
  predicate StartsWithCI(s: string, t: string)
  {
    |t| <= |s| && Lower(s[..|t|]) == Lower(t)
  }

  lemma {:induction false} ContainsAtIndex(s: string, t: string, i: nat)
    requires i + |t| <= |s| && s[i..i + |t|] == t
    ensures Contains(s, t)
    decreases i
  {
    if i == 0 {
      assert t <= s;
    } else {
      assert s[1..][i - 1..i - 1 + |t|] == t;
      ContainsAtIndex(s[1..], t, i - 1);
    }
  }

  lemma {:induction false} ContainsAppend(a: string, b: string, t: string)
    requires Contains(b, t)
    ensures Contains(a + b, t)
    decreases |a|
  {
    if a == [] {
      assert a + b == b;
    } else {
      assert (a + b)[1..] == a[1..] + b;
      ContainsAppend(a[1..], b, t);
    }
  }

  /** `str.replace(pat, rep)`: every occurrence of `pat`, found left to right
      without overlap, becomes `rep`. The program never replaces the empty
      string. */
  function ReplaceAll(s: string, pat: string, rep: string): string
    requires |pat| > 0
    decreases |s|
  {
    if pat <= s then rep + ReplaceAll(s[|pat|..], pat, rep)
    else if s == [] then []
    else [s[0]] + ReplaceAll(s[1..], pat, rep)
  }

  /** A replacement introduces no character that neither the text nor the
      replacement had. */
  lemma {:induction false} ReplaceAllChars(s: string, pat: string, rep: string, c: char)
    requires |pat| > 0
    requires c in ReplaceAll(s, pat, rep)
    ensures c in s || c in rep
    decreases |s|
  {
    if pat <= s {
      if c !in rep {
        ReplaceAllChars(s[|pat|..], pat, rep, c);
      }
    } else if s != [] {
      if c != s[0] {
        ReplaceAllChars(s[1..], pat, rep, c);
      }
    }
  }

  /** Replacing a single character by text that does not contain it leaves
      no occurrence of that character behind. */
  lemma {:induction false} ReplaceCharGone(s: string, c: char, rep: string)
    requires c !in rep
    ensures c !in ReplaceAll(s, [c], rep)
    decreases |s|
  {
    if s != [] {
      ReplaceCharGone(s[1..], c, rep);
    }
  }

  /** A replacement whose target does not occur changes nothing. */
  lemma {:induction false} ReplaceAbsent(s: string, pat: string, rep: string)
    requires |pat| > 0 && !Contains(s, pat)
    ensures ReplaceAll(s, pat, rep) == s
    decreases |s|
  {
    if s != [] {
      ReplaceAbsent(s[1..], pat, rep);
    }
  }

  /** Replacing one character by another changes each position on its own:
      the length stays, and exactly the positions holding `c` now hold `d`. */
  lemma {:induction false} ReplaceCharPointwise(s: string, c: char, d: char)
    ensures var r := ReplaceAll(s, [c], [d]);
            |r| == |s| && forall i :: 0 <= i < |s| ==> r[i] == (if s[i] == c then d else s[i])
    decreases |s|
  {
    if s != [] {
      ReplaceCharPointwise(s[1..], c, d);
      var r := ReplaceAll(s, [c], [d]);
      var r' := ReplaceAll(s[1..], [c], [d]);
      assert r == [if s[0] == c then d else s[0]] + r';
      forall i | 0 < i < |s|
        ensures r[i] == (if s[i] == c then d else s[i])
      {
        assert r[i] == r'[i - 1] && s[i] == s[1..][i - 1];
      }
    }
  }

  /** Replacing a single character acts on each part of a concatenation
      separately. */
  lemma {:induction false} ReplaceCharAppend(x: string, y: string, c: char, rep: string)
    ensures ReplaceAll(x + y, [c], rep) == ReplaceAll(x, [c], rep) + ReplaceAll(y, [c], rep)
    decreases |x|
  {
    if x == [] {
      assert x + y == y;
    } else {
      var head := if x[0] == c then rep else [x[0]];
      assert (x + y)[0] == x[0] && (x + y)[1..] == x[1..] + y;
      calc {
        ReplaceAll(x + y, [c], rep);
      ==
        head + ReplaceAll(x[1..] + y, [c], rep);
      ==  { ReplaceCharAppend(x[1..], y, c, rep); }
        head + (ReplaceAll(x[1..], [c], rep) + ReplaceAll(y, [c], rep));
      ==
        (head + ReplaceAll(x[1..], [c], rep)) + ReplaceAll(y, [c], rep);
      }
    }
  }

  /** The first index at or after `i` holding `c`, or `|s|` when there is
      none (`str.find` with the "not found" case moved to the end). */
  function IndexFrom(s: string, c: char, i: nat): (j: nat)
    requires i <= |s|
    ensures i <= j <= |s| && (j == |s| || s[j] == c)
    decreases |s| - i
  {
    if i == |s| || s[i] == c then i else IndexFrom(s, c, i + 1)
  }

  /** `IndexFrom` finds the FIRST such index: the one before which `c` does
      not occur. */
  lemma {:induction false} IndexFromIs(s: string, c: char, i: nat, j: nat)
    requires i <= j <= |s| && (j == |s| || s[j] == c)
    requires forall k :: i <= k < j ==> s[k] != c
    ensures IndexFrom(s, c, i) == j
    decreases j - i
  {
    if i < j {
      IndexFromIs(s, c, i + 1, j);
    }
  }

  /** End of the maximal run of white space starting at `i`. */
  function SpaceRunEnd(s: string, i: nat): (j: nat)
    requires i <= |s|
    ensures i <= j <= |s| && (j == |s| || !IsSpace(s[j]))
    decreases |s| - i
  {
    if i < |s| && IsSpace(s[i]) then SpaceRunEnd(s, i + 1) else i
  }

  /** The run is made of white space, and is the longest such run. */
  lemma {:induction false} SpaceRunEndIs(s: string, i: nat, j: nat)
    requires i <= j <= |s| && (j == |s| || !IsSpace(s[j]))
    requires forall k :: i <= k < j ==> IsSpace(s[k])
    ensures SpaceRunEnd(s, i) == j
    decreases j - i
  {
    if i < j {
      SpaceRunEndIs(s, i + 1, j);
    }
  }

  /** The last line break in `s[i..j]`, if any. */
  function LastNewline(s: string, i: nat, j: nat): (k: Option<nat>)
    requires i <= j <= |s|
    ensures k.Some? ==> i <= k.value < j && s[k.value] == '\n'
    decreases j - i
  {
    if j == i then None
    else if s[j - 1] == '\n' then Some(j - 1)
    else LastNewline(s, i, j - 1)
  }

  /** `LastNewline` finds the LAST line break of the range. */
  lemma {:induction false} LastNewlineIs(s: string, i: nat, j: nat, k: nat)
    requires i <= k < j <= |s| && s[k] == '\n'
    requires forall m :: k < m < j ==> s[m] != '\n'
    ensures LastNewline(s, i, j) == Some(k)
    decreases j - i
  {
    if k < j - 1 {
      LastNewlineIs(s, i, j - 1, k);
    }
  }

  /** With no line break in the range there is none to find. */
  lemma {:induction false} LastNewlineNone(s: string, i: nat, j: nat)
    requires i <= j <= |s|
    requires forall m :: i <= m < j ==> s[m] != '\n'
    ensures LastNewline(s, i, j) == None
    decreases j - i
  {
    if i < j {
      LastNewlineNone(s, i, j - 1);
    }
  }

  /** A chain of `text = text.replace(a, b)` lines, applied in order. */
  function ReplaceChain(s: string, pairs: seq<(string, string)>): string
    requires forall k :: 0 <= k < |pairs| ==> |pairs[k].0| > 0
    decreases |pairs|
  {
    if pairs == [] then s else ReplaceChain(ReplaceAll(s, pairs[0].0, pairs[0].1), pairs[1..])
  }

  /** A character that neither the text nor any replacement holds is not in
      the result of the chain. */
  lemma {:induction false} ReplaceChainAbsent(s: string, pairs: seq<(string, string)>, c: char)
    requires forall k :: 0 <= k < |pairs| ==> |pairs[k].0| > 0
    requires c !in s
    requires forall k :: 0 <= k < |pairs| ==> c !in pairs[k].1
    ensures c !in ReplaceChain(s, pairs)
    decreases |pairs|
  {
    if pairs != [] {
      var t := ReplaceAll(s, pairs[0].0, pairs[0].1);
      if c in t {
        ReplaceAllChars(s, pairs[0].0, pairs[0].1, c);
      }
      ReplaceChainAbsent(t, pairs[1..], c);
    }
  }

  /** A chain in which some step removes every `c` and no step from there on
      brings `c` back leaves no `c`. */
  lemma {:induction false} ReplaceChainRemoves(s: string, pairs: seq<(string, string)>, k: nat, c: char)
    requires forall j :: 0 <= j < |pairs| ==> |pairs[j].0| > 0
    requires k < |pairs| && pairs[k].0 == [c]
    requires forall j :: k <= j < |pairs| ==> c !in pairs[j].1
    ensures c !in ReplaceChain(s, pairs)
    decreases k
  {
    var t := ReplaceAll(s, pairs[0].0, pairs[0].1);
    if k == 0 {
      ReplaceCharGone(s, c, pairs[0].1);
      ReplaceChainAbsent(t, pairs[1..], c);
    } else {
      ReplaceChainRemoves(t, pairs[1..], k - 1, c);
    }
  }

  /** A chain split in two runs the first part, then the second. */
  lemma {:induction false} ReplaceChainAppend(s: string, p: seq<(string, string)>, q: seq<(string, string)>)
    requires forall k :: 0 <= k < |p| ==> |p[k].0| > 0
    requires forall k :: 0 <= k < |q| ==> |q[k].0| > 0
    ensures ReplaceChain(s, p + q) == ReplaceChain(ReplaceChain(s, p), q)
    decreases |p|
  {
    if p == [] {
      assert p + q == q;
    } else {
      assert (p + q)[0] == p[0] && (p + q)[1..] == p[1..] + q;
      ReplaceChainAppend(ReplaceAll(s, p[0].0, p[0].1), p[1..], q);
    }
  }

  /** A chain none of whose targets starts with a character of the text
      leaves the text as it is. */
  lemma {:induction false} ReplaceChainIdle(s: string, pairs: seq<(string, string)>)
    requires forall k :: 0 <= k < |pairs| ==> |pairs[k].0| > 0 && pairs[k].0[0] !in s
    ensures ReplaceChain(s, pairs) == s
    decreases |pairs|
  {
    if pairs != [] {
      NoFirstCharNotContained(s, pairs[0].0);
      ReplaceAbsent(s, pairs[0].0, pairs[0].1);
      ReplaceChainIdle(s, pairs[1..]);
    }
  }

  /** A chain of single-character targets acts on each part of a
      concatenation separately. */
  lemma {:induction false} ReplaceChainCharAppend(x: string, y: string, pairs: seq<(string, string)>)
    requires forall k :: 0 <= k < |pairs| ==> |pairs[k].0| == 1
    ensures ReplaceChain(x + y, pairs) == ReplaceChain(x, pairs) + ReplaceChain(y, pairs)
    decreases |pairs|
  {
    if pairs != [] {
      var c := pairs[0].0[0];
      assert pairs[0].0 == [c];
      ReplaceCharAppend(x, y, c, pairs[0].1);
      ReplaceChainCharAppend(ReplaceAll(x, [c], pairs[0].1), ReplaceAll(y, [c], pairs[0].1), pairs[1..]);
    }
  }

  /** A one-character text meets a chain of one-character targets: it is
      kept until the first step aiming at it, and what that step puts in its
      place is touched by no later step. */
  lemma {:induction false} ReplaceChainHitOnce(ch: char, pairs: seq<(string, string)>, k: nat)
    requires forall j :: 0 <= j < |pairs| ==> |pairs[j].0| == 1
    requires k < |pairs| && pairs[k].0 == [ch]
    requires forall j :: 0 <= j < k ==> pairs[j].0 != [ch]
    requires forall j :: k < j < |pairs| ==> pairs[j].0[0] !in pairs[k].1
    ensures ReplaceChain([ch], pairs) == pairs[k].1
    decreases k
  {
    var rep := pairs[0].1;
    if k == 0 {
      assert ReplaceAll([ch], [ch], rep) == rep + ReplaceAll([], [ch], rep) == rep + [] == rep;
      assert ReplaceChain([ch], pairs) == ReplaceChain(rep, pairs[1..]);
      ReplaceChainIdle(rep, pairs[1..]);
    } else {
      var c := pairs[0].0[0];
      assert pairs[0].0 == [c] && c != ch;
      assert ReplaceAll([ch], [c], rep) == [ch] + ReplaceAll([], [c], rep);
      ReplaceChainHitOnce(ch, pairs[1..], k - 1);
    }
  }

  /** A chain whose every step leaves the text as it is leaves it as it is. */
  lemma {:induction false} ReplaceChainFixed(s: string, pairs: seq<(string, string)>)
    requires forall k :: 0 <= k < |pairs| ==> |pairs[k].0| > 0
    requires forall k :: 0 <= k < |pairs| ==> ReplaceAll(s, pairs[k].0, pairs[k].1) == s
    ensures ReplaceChain(s, pairs) == s
    decreases |pairs|
  {
    if pairs != [] {
      ReplaceChainFixed(s, pairs[1..]);
    }
  }

  /** A target that starts with the text's first character, which occurs
      nowhere else, and then differs from the text cannot occur in it. */
  lemma HeadOnlyFixed(h: char, rest: string, pat: string, rep: string)
    requires |pat| >= 2 && pat[0] == h && h !in rest && rest != [] && pat[1] != rest[0]
    ensures ReplaceAll([h] + rest, pat, rep) == [h] + rest
  {
    var s := [h] + rest;
    assert s[1] == rest[0] && s[1..] == rest;
    assert !(pat <= s);
    NoFirstCharNotContained(rest, pat);
    ReplaceAbsent(rest, pat, rep);
  }

  /** A target at the very start of a text whose rest never starts it
      again is replaced once. */
  lemma ReplaceAtFront(pat: string, rest: string, rep: string)
    requires |pat| > 0 && pat[0] !in rest
    ensures ReplaceAll(pat + rest, pat, rep) == rep + rest
  {
    var s := pat + rest;
    assert pat <= s && s[|pat|..] == rest;
    NoFirstCharNotContained(rest, pat);
    ReplaceAbsent(rest, pat, rep);
  }

  /** A one-character text passes a chain of longer targets unchanged. */
  lemma OneCharChainFixed(ch: char, pairs: seq<(string, string)>)
    requires forall k :: 0 <= k < |pairs| ==> |pairs[k].0| >= 2
    ensures ReplaceChain([ch], pairs) == [ch]
  {
    forall k | 0 <= k < |pairs|
      ensures ReplaceAll([ch], pairs[k].0, pairs[k].1) == [ch]
    {
      OneCharFixed(ch, pairs[k].0, pairs[k].1);
    }
    ReplaceChainFixed([ch], pairs);
  }

  /** The first step of a chain whose target opens the text, and does not
      start again in the rest, replaces it once. */
  lemma ReplaceChainFront(pat: string, rest: string, pairs: seq<(string, string)>)
    requires forall k :: 0 <= k < |pairs| ==> |pairs[k].0| > 0
    requires |pairs| >= 1 && pairs[0].0 == pat && pat[0] !in rest
    ensures ReplaceChain(pat + rest, pairs) == ReplaceChain(pairs[0].1 + rest, pairs[1..])
  {
    ReplaceAtFront(pat, rest, pairs[0].1);
  }

  /** Steps at the head of a chain that leave the text as it is can be
      skipped. */
  lemma {:induction false} ReplaceChainSkip(s: string, pairs: seq<(string, string)>, n: nat)
    requires forall k :: 0 <= k < |pairs| ==> |pairs[k].0| > 0
    requires n <= |pairs|
    requires forall k :: 0 <= k < n ==> ReplaceAll(s, pairs[k].0, pairs[k].1) == s
    ensures ReplaceChain(s, pairs) == ReplaceChain(s, pairs[n..])
    decreases n
  {
    if n > 0 {
      assert pairs[1..][n - 1..] == pairs[n..];
      ReplaceChainSkip(s, pairs[1..], n - 1);
    }
  }

  /** A two-character target whose characters differ cannot straddle the
      edge of an occurrence placed between two texts: the occurrence is
      replaced, and each side is rewritten on its own. */
  lemma {:induction false} ReplaceAround(a: string, b: string, pat: string, rep: string)
    requires |pat| == 2 && pat[0] != pat[1]
    ensures ReplaceAll(a + pat + b, pat, rep) == ReplaceAll(a, pat, rep) + rep + ReplaceAll(b, pat, rep)
    decreases |a|
  {
    var s := a + pat + b;
    var y := ReplaceAll(b, pat, rep);
    if a == [] {
      assert s == pat + b && s[2..] == b;
    } else if pat <= a {
      assert pat <= s && s[2..] == a[2..] + pat + b;
      var x := ReplaceAll(a[2..], pat, rep);
      calc {
        ReplaceAll(s, pat, rep);
      ==
        rep + ReplaceAll(a[2..] + pat + b, pat, rep);
      ==  { ReplaceAround(a[2..], b, pat, rep); }
        rep + (x + rep + y);
      ==
        (rep + x) + rep + y;
      }
    } else {
      assert !(pat <= s) by {
        if |a| == 1 {
          assert s[1] == pat[0];
        } else {
          assert s[..2] == a[..2];
        }
      }
      assert s[0] == a[0] && s[1..] == a[1..] + pat + b;
      var x := ReplaceAll(a[1..], pat, rep);
      calc {
        ReplaceAll(s, pat, rep);
      ==
        [a[0]] + ReplaceAll(a[1..] + pat + b, pat, rep);
      ==  { ReplaceAround(a[1..], b, pat, rep); }
        [a[0]] + (x + rep + y);
      ==
        ([a[0]] + x) + rep + y;
      }
    }
  }

  /** A target longer than the text cannot occur in it. */
  lemma OneCharFixed(ch: char, pat: string, rep: string)
    requires |pat| >= 2
    ensures ReplaceAll([ch], pat, rep) == [ch]
  {
    assert !(pat <= [ch]);
    assert ReplaceAll([ch], pat, rep) == [ch] + ReplaceAll([], pat, rep);
  }

  /** Text before the first possible start of `pat` is copied through. */
  lemma {:induction false} ReplaceAllSkip(x: string, z: string, pat: string, rep: string)
    requires |pat| > 0 && pat[0] !in x
    ensures ReplaceAll(x + z, pat, rep) == x + ReplaceAll(z, pat, rep)
    decreases |x|
  {
    if x == [] {
      assert x + z == z;
    } else {
      var s := x + z;
      assert s[0] == x[0] && x[0] != pat[0];
      assert !(pat <= s);
      assert s[1..] == x[1..] + z;
      ReplaceAllSkip(x[1..], z, pat, rep);
      assert ReplaceAll(s, pat, rep) == [s[0]] + ReplaceAll(s[1..], pat, rep);
    }
  }

  /** A text without the first character of `pat` has no occurrence of it. */
  lemma NoFirstCharNotContained(s: string, pat: string)
    requires |pat| > 0 && pat[0] !in s
    ensures !Contains(s, pat)
  {
    if Contains(s, pat) {
      FirstCharOfOccurrence(s, pat);
    }
  }

  lemma {:induction false} FirstCharOfOccurrence(s: string, pat: string)
    requires |pat| > 0 && Contains(s, pat)
    ensures pat[0] in s
    decreases |s|
  {
    if !(pat <= s) {
      FirstCharOfOccurrence(s[1..], pat);
    }
  }

  /** `str.split(sep)` / `re.split` with a literal separator: the pieces
      between non-overlapping occurrences found left to right. `cur` is the
      piece being built. */
  function SplitFrom(s: string, sep: string, cur: string): (parts: seq<string>)
    requires |sep| > 0
    ensures |parts| >= 1
    decreases |s|
  {
    if sep <= s then [cur] + SplitFrom(s[|sep|..], sep, [])
    else if s == [] then [cur]
    else SplitFrom(s[1..], sep, cur + [s[0]])
  }

  function Split(s: string, sep: string): (parts: seq<string>)
    requires |sep| > 0
    ensures |parts| >= 1
  {
    SplitFrom(s, sep, [])
  }

  /** `sep.join(parts)`. */
  function Join(parts: seq<string>, sep: string): string
  {
    if parts == [] then []
    else if |parts| == 1 then parts[0]
    else parts[0] + sep + Join(parts[1..], sep)
  }

  /** `s.split("\n")`. */
  function Lines(s: string): (lines: seq<string>)
    ensures |lines| >= 1
  {
    Split(s, "\n")
  }

  function Unlines(lines: seq<string>): string
  {
    Join(lines, "\n")
  }

  lemma JoinCons(p: string, rest: seq<string>, sep: string)
    requires rest != []
    ensures Join([p] + rest, sep) == p + sep + Join(rest, sep)
  {
    assert ([p] + rest)[1..] == rest;
  }

  /** Joining the pieces of a split with the same separator gives the text
      back. */
  lemma {:induction false} JoinSplitFrom(s: string, sep: string, cur: string)
    requires |sep| > 0
    ensures Join(SplitFrom(s, sep, cur), sep) == cur + s
    decreases |s|
  {
    if sep <= s {
      var rest := SplitFrom(s[|sep|..], sep, []);
      JoinSplitFrom(s[|sep|..], sep, []);
      JoinCons(cur, rest, sep);
      assert s == sep + s[|sep|..];
    } else if s == [] {
    } else {
      JoinSplitFrom(s[1..], sep, cur + [s[0]]);
      assert cur + [s[0]] + s[1..] == cur + s;
    }
  }

  lemma JoinSplit(s: string, sep: string)
    requires |sep| > 0
    ensures Join(Split(s, sep), sep) == s
  {
    JoinSplitFrom(s, sep, []);
  }

  /** A text without the separator splits into itself alone. */
  lemma {:induction false} SplitFromAbsent(s: string, sep: string, cur: string)
    requires |sep| > 0 && !Contains(s, sep)
    ensures SplitFrom(s, sep, cur) == [cur + s]
    decreases |s|
  {
    if s == [] {
      assert cur + s == cur;
    } else {
      assert !(sep <= s);
      SplitFromAbsent(s[1..], sep, cur + [s[0]]);
      assert cur + [s[0]] + s[1..] == cur + s;
    }
  }

  lemma SplitAbsent(s: string, sep: string)
    requires |sep| > 0 && !Contains(s, sep)
    ensures Split(s, sep) == [s]
  {
    SplitFromAbsent(s, sep, []);
    assert [] + s == s;
  }

  /** Splitting on one character distributes over a text that has that
      character in the middle. */
  lemma {:induction false} SplitFromAround(a: string, c: char, b: string, cur: string)
    ensures SplitFrom(a + [c] + b, [c], cur) == SplitFrom(a, [c], cur) + Split(b, [c])
    decreases |a|
  {
    if a == [] {
      assert [c] <= [c] + b;
      assert ([c] + b)[1..] == b;
      assert a + [c] + b == [c] + b;
    } else if [c] <= a {
      assert [c] <= a + [c] + b;
      assert (a + [c] + b)[1..] == a[1..] + [c] + b;
      SplitFromAround(a[1..], c, b, []);
    } else {
      assert !([c] <= a + [c] + b);
      assert (a + [c] + b)[1..] == a[1..] + [c] + b;
      SplitFromAround(a[1..], c, b, cur + [a[0]]);
    }
  }

  lemma LinesAround(a: string, b: string)
    ensures Lines(a + "\n" + b) == Lines(a) + Lines(b)
  {
    SplitFromAround(a, '\n', b, []);
  }

  /** No piece of a split on one character contains that character. */
  lemma {:induction false} SplitFromPiecesFree(s: string, c: char, cur: string)
    requires c !in cur
    ensures forall p :: p in SplitFrom(s, [c], cur) ==> c !in p
    decreases |s|
  {
    if [c] <= s {
      SplitFromPiecesFree(s[1..], c, []);
    } else if s != [] {
      SplitFromPiecesFree(s[1..], c, cur + [s[0]]);
    }
  }

  lemma LinesHaveNoNewline(s: string)
    ensures forall line :: line in Lines(s) ==> '\n' !in line
  {
    SplitFromPiecesFree(s, '\n', []);
  }

  /** Splitting a join of newline-free lines gives the lines back. */
  lemma {:induction false} LinesUnlines(lines: seq<string>)
    requires |lines| >= 1
    requires forall line :: line in lines ==> '\n' !in line
    ensures Lines(Unlines(lines)) == lines
    decreases |lines|
  {
    var first := lines[0];
    assert !Contains(first, "\n") by { NoCharNotContained(first, '\n'); }
    if |lines| == 1 {
      SplitAbsent(first, "\n");
    } else {
      var rest := lines[1..];
      JoinCons(first, rest, "\n");
      assert lines == [first] + rest;
      LinesUnlines(rest);
      LinesAround(first, Unlines(rest));
      SplitAbsent(first, "\n");
    }
  }

  lemma {:induction false} NoCharNotContained(s: string, c: char)
    requires c !in s
    ensures !Contains(s, [c])
    decreases |s|
  {
    if s != [] {
      assert s[0] != c;
      assert !([c] <= s);
      NoCharNotContained(s[1..], c);
    }
  }
}
