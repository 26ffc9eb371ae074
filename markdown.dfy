/** `clean_markdown_artifacts` (email_selector_ui/clean_emails.py:118-154). */
module Markdown {
  import opened Text
  import opened Rules
  import opened Substitution

  /** Lines 142-144: markdown escapes undone, in this order. */
  const Unescapes: seq<(string, string)> := [("\\--", "--"), ("\\[", "["), ("\\]", "]")]

  /** Lines 150-152: image references by name, `![...](cid:...)` images and
      bare `[cid:...]` references all become the marker "[Image]". */
  function MarkImageReferences(text: string): string
  {
    var t := Substitute(BracketRef("[image: "), text);
    var t' := Substitute(CidImage, t);
    Substitute(BracketRef("[cid:"), t')
  }

  /** The stage, in source order. */
  function CleanMarkdown(text: string, book: RuleBook): string
  {
    var t1 := ApplyRules(book.markdownImages, text);     // line 122
    var t2 := Substitute(LongLink, t1);                  // lines 126-130
    var t3 := ReplaceAll(t2, "[link]", "");              // line 133
    var t4 := ApplyRules(book.markdownEmpty, t3);        // lines 136-139
    var t5 := ReplaceChain(t4, Unescapes);               // lines 142-144
    var t6 := ApplyRules(book.markdownHeadings, t5);     // line 147
    MarkImageReferences(t6)                              // lines 150-152
  }

  /** A link can only start at `[`. */
  lemma NoLinkWithoutBracket(x: string, rest: string)
    requires '[' !in x
    ensures forall q :: 0 <= q < |x| ==> SubAt(LongLink, x + rest, q).None?
  {
    forall q | 0 <= q < |x|
      ensures SubAt(LongLink, x + rest, q).None?
    {
      assert (x + rest)[q] == x[q];
    }
  }

  lemma LongLinkMatches(x: string, anchor: string, target: string, y: string)
    requires anchor != [] && ']' !in anchor && ')' !in target
    ensures var s := x + "[" + anchor + "](" + target + ")" + y;
            LongLinkAt(s, |x|)
            == if |target| >= MinLinkTarget then Some(Hit(|x| + |anchor| + |target| + 4, anchor)) else None
  {
    var s := x + "[" + anchor + "](" + target + ")" + y;
    var i := |x|;
    assert s[i] == '[';
    assert IndexFrom(s, ']', i + 1) == i + 1 + |anchor| by {
      assert s[i + 1 + |anchor|] == ']';
      forall k | i + 1 <= k < i + 1 + |anchor|
        ensures s[k] != ']'
      {
        assert s[k] == anchor[k - i - 1];
      }
      IndexFromIs(s, ']', i + 1, i + 1 + |anchor|);
    }
    assert s[i + 2 + |anchor|] == '(';
    assert IndexFrom(s, ')', i + 3 + |anchor|) == i + 3 + |anchor| + |target| by {
      assert s[i + 3 + |anchor| + |target|] == ')';
      forall k | i + 3 + |anchor| <= k < i + 3 + |anchor| + |target|
        ensures s[k] != ')'
      {
        assert s[k] == target[k - i - 3 - |anchor|];
      }
      IndexFromIs(s, ')', i + 3 + |anchor|, i + 3 + |anchor| + |target|);
    }
    assert s[i + 1..i + 1 + |anchor|] == anchor;
  }

  /** Lines 126-130: a markdown link whose target has 80 or more characters
      collapses to its label; the engine goes on after the link. */
  lemma LongLinkCollapses(x: string, anchor: string, target: string, y: string)
    requires '[' !in x
    requires anchor != [] && ']' !in anchor && ')' !in target && |target| >= MinLinkTarget
    ensures var s := x + "[" + anchor + "](" + target + ")" + y;
            Substitute(LongLink, s)
            == x + anchor + SubstituteFrom(LongLink, s, |x| + |anchor| + |target| + 4)
  {
    var s := x + "[" + anchor + "](" + target + ")" + y;
    var h := Hit(|x| + |anchor| + |target| + 4, anchor);
    assert forall q :: 0 <= q < |x| ==> SubAt(LongLink, s, q).None? by {
      NoLinkWithoutBracket(x, "[" + anchor + "](" + target + ")" + y);
      assert s == x + ("[" + anchor + "](" + target + ")" + y);
    }
    assert SubAt(LongLink, s, |x|) == Some(h) by {
      LongLinkMatches(x, anchor, target, y);
    }
    SubstituteFirstHit(LongLink, s, |x|, h);
    assert s[..|x|] == x;
  }

  /** A link whose target is shorter than 80 characters is left as it is. */
  lemma ShortLinkKept(x: string, anchor: string, target: string, y: string)
    requires '[' !in x && '[' !in anchor && '[' !in target && '[' !in y
    requires anchor != [] && ']' !in anchor && ')' !in target && |target| < MinLinkTarget
    ensures var s := x + "[" + anchor + "](" + target + ")" + y;
            Substitute(LongLink, s) == s
  {
    var s := x + "[" + anchor + "](" + target + ")" + y;
    LongLinkMatches(x, anchor, target, y);
    forall q | 0 <= q < |s|
      ensures SubAt(LongLink, s, q).None?
    {
      if q != |x| {
        assert s[q] != '[' by {
          if q < |x| {
            assert s[q] == x[q];
          } else if q < |x| + 1 + |anchor| {
            assert s[q] == anchor[q - |x| - 1];
          } else if q < |x| + 3 + |anchor| {
          } else if q < |x| + 3 + |anchor| + |target| {
            assert s[q] == target[q - |x| - 3 - |anchor|];
          } else if q == |x| + 3 + |anchor| + |target| {
          } else {
            assert s[q] == y[q - |x| - 4 - |anchor| - |target|];
          }
        }
      }
    }
    SubstituteNowhere(LongLink, s, 0);
  }

  /** Lines 150-152: a `[image: name]` reference becomes "[Image]", and the
      two later substitutions leave that marker alone. */
  lemma ImageReferenceMarked(x: string, name: string, y: string)
    requires '[' !in x && '!' !in x && '[' !in y
    requires name != [] && ']' !in name && '[' !in name
    ensures MarkImageReferences(x + "[image: " + name + "]" + y) == x + ImageMarker + y
  {
    var s := x + "[image: " + name + "]" + y;
    var t := x + ImageMarker + y;
    assert Substitute(BracketRef("[image: "), s) == t by {
      NamedReferenceReplaced(x, name, y);
    }
    MarkerSurvives(x, y);
  }

  lemma NamedReferenceReplaced(x: string, name: string, y: string)
    requires '[' !in x && '[' !in y
    requires name != [] && ']' !in name
    ensures Substitute(BracketRef("[image: "), x + "[image: " + name + "]" + y) == x + ImageMarker + y
  {
    var sub := BracketRef("[image: ");
    var s := x + "[image: " + name + "]" + y;
    var e := |x| + 9 + |name|;
    var h := Hit(e, ImageMarker);
    assert forall q :: 0 <= q < |x| ==> SubAt(sub, s, q).None? by {
      forall q | 0 <= q < |x|
        ensures SubAt(sub, s, q).None?
      {
        assert s[q] == x[q];
      }
    }
    assert SubAt(sub, s, |x|) == Some(h) by {
      assert "[image: " <= s[|x|..];
      assert s[|x| + 8 + |name|] == ']';
      forall k | |x| + 8 <= k < |x| + 8 + |name|
        ensures s[k] != ']'
      {
        assert s[k] == name[k - |x| - 8];
      }
      IndexFromIs(s, ']', |x| + 8, |x| + 8 + |name|);
    }
    SubstituteFirstHit(sub, s, |x|, h);
    assert forall q :: e <= q < |s| ==> SubAt(sub, s, q).None? by {
      forall q | e <= q < |s|
        ensures SubAt(sub, s, q).None?
      {
        assert s[q] == y[q - e];
      }
    }
    SubstituteNowhere(sub, s, e);
    assert s[..|x|] == x;
    assert s[e..] == y;
  }

  /** Neither `![...](cid:...)` nor `[cid:...]` matches anywhere in the
      marked text, so the marker is what the stage returns. */
  lemma MarkerSurvives(x: string, y: string)
    requires '[' !in x && '!' !in x && '[' !in y
    ensures Substitute(CidImage, x + ImageMarker + y) == x + ImageMarker + y
    ensures Substitute(BracketRef("[cid:"), x + ImageMarker + y) == x + ImageMarker + y
  {
    var t := x + ImageMarker + y;
    forall q | 0 <= q < |t|
      ensures SubAt(CidImage, t, q).None? && SubAt(BracketRef("[cid:"), t, q).None?
    {
      assert t[q..][0] == t[q];
      if q < |x| {
        assert t[q] == x[q];
      } else if q == |x| {
        assert t[q] == '[' && t[q + 1] == 'I';
        assert t[q..][1] == t[q + 1];
      } else if q < |x| + 7 {
        assert t[q] == ImageMarker[q - |x|];
      } else {
        assert t[q] == y[q - |x| - 7];
        if q + 1 < |t| {
          assert t[q..][1] == t[q + 1] == y[q + 1 - |x| - 7];
        }
      }
    }
    SubstituteNowhere(CidImage, t, 0);
    SubstituteNowhere(BracketRef("[cid:"), t, 0);
  }
}
