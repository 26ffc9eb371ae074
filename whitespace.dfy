/** `clean_whitespace` (email_selector_ui/clean_emails.py:302-353). */
module Whitespace {
  import opened Text
  import opened Rules
  import opened Substitution

  /** Lines 338-343, in source order: zero-width space, non-joiner and
      joiner, narrow no-break space (to a space), soft hyphen, byte order
      mark. */
  const Invisibles: seq<(string, string)> := [
    ("\U{200B}", ""), ("\U{200C}", ""), ("\U{200D}", ""),
    ("\U{202F}", " "), ("\U{00AD}", ""), ("\U{FEFF}", "")
  ]

  /** The characters the stage promises to leave no trace of. */
  predicate Removed(c: char)
  {
    c == '\U{200B}' || c == '\U{200C}' || c == '\U{200D}' || c == '\U{202F}'
    || c == '\U{00AD}' || c == '\U{FEFF}' || c == '\r'
  }

  /** Lines 350-351. */
  function NormalizeNewlines(t: string): string
  {
    ReplaceAll(ReplaceAll(t, "\r\n", "\n"), "\r", "\n")
  }

  /** The stage, in source order. */
  function CleanWhitespace(text: string, book: RuleBook): string
  {
    var t1 := ApplyRules(book.blankLines, text);        // lines 306-309
    var t2 := Strip(t1);                                // line 312
    var t3 := ApplyRules(book.layoutLeftovers, t2);     // lines 315-335
    var t4 := ReplaceChain(t3, Invisibles);             // lines 338-343
    var t5 := Substitute(SpacerLine, t4);               // line 346
    var t6 := Substitute(ZeroWidthRun, t5);             // line 347
    NormalizeNewlines(t6)                               // lines 350-351
  }

  lemma InvisiblesRemoved(t: string, c: char)
    requires Removed(c) && c != '\r'
    ensures c !in ReplaceChain(t, Invisibles)
  {
    var k := if c == '\U{200B}' then 0 else if c == '\U{200C}' then 1 else if c == '\U{200D}' then 2
             else if c == '\U{202F}' then 3 else if c == '\U{00AD}' then 4 else 5;
    ReplaceChainRemoves(t, Invisibles, k, c);
  }

  lemma NormalizeNewlinesClean(t: string, c: char)
    requires Removed(c) && (c == '\r' || c !in t)
    ensures c !in NormalizeNewlines(t)
  {
    var u := ReplaceAll(t, "\r\n", "\n");
    if c == '\r' {
      ReplaceCharGone(u, '\r', "\n");
    } else {
      if c in u {
        ReplaceAllChars(t, "\r\n", "\n", c);
      }
      if c in NormalizeNewlines(t) {
        ReplaceAllChars(u, "\r", "\n", c);
      }
    }
  }

  /** Whatever the rules before them do, the output of the stage holds no
      zero-width space, non-joiner or joiner, no narrow no-break space, no
      soft hyphen, no byte order mark and no carriage return. */
  lemma WhitespaceOutputClean(text: string, book: RuleBook, c: char)
    requires Removed(c)
    ensures c !in CleanWhitespace(text, book)
  {
    var t3 := ApplyRules(book.layoutLeftovers, Strip(ApplyRules(book.blankLines, text)));
    var t4 := ReplaceChain(t3, Invisibles);
    var t5 := Substitute(SpacerLine, t4);
    var t6 := Substitute(ZeroWidthRun, t5);
    assert CleanWhitespace(text, book) == NormalizeNewlines(t6);
    if c != '\r' {
      InvisiblesRemoved(t3, c);
      SubstitutionsKeepOut(t4, c);
    }
    NormalizeNewlinesClean(t6, c);
  }

  /** What lines 338-343 make of one character: a narrow no-break space
      becomes a space, the five other invisible characters vanish, anything
      else stays. */
  function InvisibleFate(ch: char): string
  {
    if ch == '\U{202F}' then " "
    else if Removed(ch) && ch != '\r' then []
    else [ch]
  }

  function StripInvisibles(s: string): string
    decreases |s|
  {
    if s == [] then [] else InvisibleFate(s[0]) + StripInvisibles(s[1..])
  }

  /** Lines 338-343 treat every character on its own: the narrow no-break
      space becomes a space, the other five are deleted, and every other
      character is kept in place. */
  lemma {:induction false} InvisiblesChainExact(t: string)
    ensures ReplaceChain(t, Invisibles) == StripInvisibles(t)
    decreases |t|
  {
    if t == [] {
      ReplaceChainIdle(t, Invisibles);
    } else {
      assert t == [t[0]] + t[1..];
      ReplaceChainCharAppend([t[0]], t[1..], Invisibles);
      InvisibleCharFate(t[0]);
      InvisiblesChainExact(t[1..]);
    }
  }

  lemma InvisibleCharFate(ch: char)
    ensures ReplaceChain([ch], Invisibles) == InvisibleFate(ch)
  {
    if !Removed(ch) || ch == '\r' {
      ReplaceChainIdle([ch], Invisibles);
    } else {
      var k := if ch == '\U{200B}' then 0 else if ch == '\U{200C}' then 1 else if ch == '\U{200D}' then 2
               else if ch == '\U{202F}' then 3 else if ch == '\U{00AD}' then 4 else 5;
      ReplaceChainHitOnce(ch, Invisibles, k);
    }
  }

  /** A text without a carriage return passes lines 350-351 unchanged. */
  lemma NormalizeNewlinesNoReturn(t: string)
    requires '\r' !in t
    ensures NormalizeNewlines(t) == t
  {
    NoFirstCharNotContained(t, "\r\n");
    ReplaceAbsent(t, "\r\n", "\n");
    NoFirstCharNotContained(t, "\r");
    ReplaceAbsent(t, "\r", "\n");
  }

  /** Each "\r\n" becomes one line break (line 350), not two: a Windows
      line end splits the text exactly like a "\n". */
  lemma NormalizeNewlinesWindowsEnd(a: string, b: string)
    ensures NormalizeNewlines(a + "\r\n" + b) == NormalizeNewlines(a) + "\n" + NormalizeNewlines(b)
  {
    var x := ReplaceAll(a, "\r\n", "\n");
    var y := ReplaceAll(b, "\r\n", "\n");
    calc {
      NormalizeNewlines(a + "\r\n" + b);
    ==
      ReplaceAll(ReplaceAll(a + "\r\n" + b, "\r\n", "\n"), "\r", "\n");
    ==  { ReplaceAround(a, b, "\r\n", "\n"); assert x + "\n" + y == x + ("\n" + y); }
      ReplaceAll(x + ("\n" + y), "\r", "\n");
    ==  { ReplaceCharAppend(x, "\n" + y, '\r', "\n"); }
      ReplaceAll(x, "\r", "\n") + ReplaceAll("\n" + y, "\r", "\n");
    ==  { ReplaceCharAppend("\n", y, '\r', "\n");
          assert ReplaceAll("\n", "\r", "\n") == "\n" + ReplaceAll([], "\r", "\n"); }
      ReplaceAll(x, "\r", "\n") + ("\n" + ReplaceAll(y, "\r", "\n"));
    ==
      NormalizeNewlines(a) + "\n" + NormalizeNewlines(b);
    }
  }

  /** Without a Windows line end, line 351 turns every lone "\r" into "\n"
      and leaves every other character where it was. */
  lemma NormalizeNewlinesLoneReturns(t: string)
    requires !Contains(t, "\r\n")
    ensures var r := NormalizeNewlines(t);
            |r| == |t| && forall i :: 0 <= i < |t| ==> r[i] == (if t[i] == '\r' then '\n' else t[i])
  {
    ReplaceAbsent(t, "\r\n", "\n");
    ReplaceCharPointwise(t, '\r', '\n');
  }

  /** Lines 346-347 insert nothing but a newline. */
  lemma SubstitutionsKeepOut(t4: string, c: char)
    requires c != '\n' && c !in t4
    ensures c !in Substitute(ZeroWidthRun, Substitute(SpacerLine, t4))
  {
    var t5 := Substitute(SpacerLine, t4);
    if c in t5 {
      SubstituteChars(SpacerLine, t4, c);
    }
    if c in Substitute(ZeroWidthRun, t5) {
      SubstituteChars(ZeroWidthRun, t5, c);
    }
  }

  /** Line 347 has nothing left to act on: line 339 has already removed the
      zero-width non-joiner it looks for, and line 346 does not bring it
      back. */
  lemma ZeroWidthRunsAlreadyGone(t3: string)
    ensures var t5 := Substitute(SpacerLine, ReplaceChain(t3, Invisibles));
            Substitute(ZeroWidthRun, t5) == t5
  {
    var t4 := ReplaceChain(t3, Invisibles);
    var t5 := Substitute(SpacerLine, t4);
    InvisiblesRemoved(t3, ZeroWidthNonJoiner);
    if ZeroWidthNonJoiner in t5 {
      SubstituteChars(SpacerLine, t4, ZeroWidthNonJoiner);
    }
    ZeroWidthRunsIdle(t5);
  }
}
