/** `clean_html_tags` (email_selector_ui/clean_emails.py:401-426). */
module Html {
  import opened Text
  import opened Rules
  import opened Substitution

  /** Lines 417-423: the numeric references the stage spells out. */
  const NumericEntities: seq<(string, string)> := [
    ("&#8209;", "-"), ("&#8211;", "\U{2013}"), ("&#8212;", "\U{2014}"), ("&#8217;", "'"),
    ("&#8220;", "\""), ("&#8221;", "\""), ("&#8230;", "...")
  ]

  /** The stage, in source order: the tag rules, the named numeric
      references, then every other `&#digits;` removed. */
  function CleanHtml(text: string, book: RuleBook): string
  {
    var t1 := ApplyRules(book.htmlTags, text);       // lines 405-414
    var t2 := ReplaceChain(t1, NumericEntities);     // lines 417-423
    Substitute(NumericRef, t2)                       // line 424
  }

  /** A numeric reference can only start at `&`. */
  lemma NoRefWithoutAmpersand(s: string, lo: nat, hi: nat)
    requires lo <= hi <= |s|
    requires forall k :: lo <= k < hi ==> s[k] != '&'
    ensures forall q :: lo <= q < hi ==> SubAt(NumericRef, s, q).None?
  {
    forall q | lo <= q < hi
      ensures SubAt(NumericRef, s, q).None?
    {
      assert s[q..][0] == s[q];
    }
  }

  /** Line 424: any other numeric reference disappears. */
  lemma NumericRefRemoved(x: string, digits: string, y: string)
    requires '&' !in x
    requires digits != [] && forall k :: 0 <= k < |digits| ==> IsDigit(digits[k])
    ensures var s := x + "&#" + digits + ";" + y;
            Substitute(NumericRef, s) == x + SubstituteFrom(NumericRef, s, |x| + |digits| + 3)
  {
    var s := x + "&#" + digits + ";" + y;
    var h := Hit(|x| + |digits| + 3, []);
    assert forall q :: 0 <= q < |x| ==> SubAt(NumericRef, s, q).None? by {
      assert forall k :: 0 <= k < |x| ==> s[k] == x[k];
      NoRefWithoutAmpersand(s, 0, |x|);
    }
    assert SubAt(NumericRef, s, |x|) == Some(h) by {
      NumericRefMatches(x, digits, y);
    }
    SubstituteFirstHit(NumericRef, s, |x|, h);
    assert s[..|x|] == x;
  }

  lemma NumericRefMatches(x: string, digits: string, y: string)
    requires digits != [] && forall k :: 0 <= k < |digits| ==> IsDigit(digits[k])
    ensures var s := x + "&#" + digits + ";" + y;
            NumericRefAt(s, |x|) == Some(Hit(|x| + |digits| + 3, []))
  {
    var s := x + "&#" + digits + ";" + y;
    assert "&#" <= s[|x|..];
    assert forall k :: |x| + 2 <= k < |x| + 2 + |digits| ==> s[k] == digits[k - |x| - 2];
    assert s[|x| + 2 + |digits|] == ';';
    DigitRunEndIs(s, |x| + 2, |x| + 2 + |digits|);
  }

  /** A text without `&` passes the reference clean-up unchanged. */
  lemma NoAmpersandUnchanged(t: string)
    requires '&' !in t
    ensures Substitute(NumericRef, ReplaceChain(t, NumericEntities)) == t
  {
    ChainIdle(t, NumericEntities);
    NoRefWithoutAmpersand(t, 0, |t|);
    SubstituteNowhere(NumericRef, t, 0);
  }

  lemma {:induction false} ChainIdle(t: string, pairs: seq<(string, string)>)
    requires forall k :: 0 <= k < |pairs| ==> |pairs[k].0| > 0 && pairs[k].0[0] == '&'
    requires '&' !in t
    ensures ReplaceChain(t, pairs) == t
    decreases |pairs|
  {
    if pairs != [] {
      NoFirstCharNotContained(t, pairs[0].0);
      ReplaceAbsent(t, pairs[0].0, pairs[0].1);
      ChainIdle(t, pairs[1..]);
    }
  }

  /** One pass is not a fixed point: removing a reference can bring two
      halves of another together. */
  lemma RemovalCanExposeReference()
    ensures Substitute(NumericRef, "&#&#1;1;") == "&#1;"
  {
    var s := "&#&#1;1;";
    assert SubAt(NumericRef, s, 0).None? by {
      DigitRunEndIs(s, 2, 2);
    }
    assert SubAt(NumericRef, s, 1).None? by {
      assert s[1..][0] == '#';
    }
    assert SubAt(NumericRef, s, 2) == Some(Hit(6, [])) by {
      assert s[2..][..2] == "&#";
      assert s[4] == '1' && s[5] == ';';
      DigitRunEndIs(s, 4, 5);
    }
    SubstituteFirstHit(NumericRef, s, 2, Hit(6, []));
    NoRefWithoutAmpersand(s, 6, 8);
    SubstituteNowhere(NumericRef, s, 6);
    assert s[..2] + s[6..] == "&#1;";
  }
}
