/** `clean_boilerplate` (email_selector_ui/clean_emails.py:202-300): keep the
    first confidentiality notice and the first "consider the environment"
    line, delete whole footer lines, drop placeholders and decode the named
    HTML entities. */
module Boilerplate {
  import opened Text
  import opened Rules
  import opened Patterns
  import opened Markdown
  import opened Substitution
  import opened Seqs

  /** Lines 240-246: a line is deleted, with its line break, when it mentions
      a phrase (in any letter case), or mentions one phrase and later on the
      same line another. */
  datatype LineTest =
    | Mentions(phrase: string)
    | MentionsThen(first: string, later: string)

  predicate ValidTest(test: LineTest)
  {
    match test
    case Mentions(phrase) => phrase != []
    case MentionsThen(first, _) => first != []
  }

  /** `first` occurs somewhere with `later` occurring after it. */
  predicate FollowedBy(line: string, first: string, later: string)
    decreases |line|
  {
    (StartsWithCI(line, first) && ContainsCI(line[|first|..], later))
    || (line != [] && FollowedBy(line[1..], first, later))
  }

  predicate Hits(test: LineTest, line: string)
  {
    match test
    case Mentions(phrase) => ContainsCI(line, phrase)
    case MentionsThen(first, later) => FollowedBy(line, first, later)
  }

  const FooterLineTests: seq<LineTest> := [
    Mentions("Unsubscribe"),                     // line 240
    Mentions("Manage preferences"),              // line 241
    Mentions("Email preferences"),               // line 242
    Mentions("Privacy policy"),                  // line 243
    MentionsThen("Contact us", "|"),             // line 244
    Mentions("View as a web page"),              // line 245
    MentionsThen("Download the latest", "app")   // line 246
  ]

  /** Lines 274-298, in source order. */
  const Entities: seq<(string, string)> := [
    ("&reg;", "\U{00AE}"), ("&nbsp;", " "), ("&rsaquo;", "\U{203A}"), ("&lsaquo;", "\U{2039}"),
    ("&rsquo;", "'"), ("&lsquo;", "'"), ("&rdquo;", "\""), ("&ldquo;", "\""),
    ("&amp;", "&"), ("&lt;", "<"), ("&gt;", ">"), ("<sup>", ""), ("</sup>", ""),
    ("&trade;", "\U{2122}"), ("&copy;", "\U{00A9}"), ("&mdash;", "\U{2014}"), ("&ndash;", "\U{2013}"),
    ("&hellip;", "..."), ("&bull;", "\U{2022}"), ("&dagger;", "\U{2020}"), ("&quot;", "\""),
    ("&apos;", "'"), ("&game;", ""), ("&lan;", ""), ("&logout;", "")
  ]

  /** The lines of the text (each without its line break), the kept ones
      joined again: a deleted line takes its own line break along. */
  function DropLinesFrom(lines: seq<string>, test: LineTest): string
    requires |lines| >= 1
    decreases |lines|
  {
    if |lines| == 1 then (if Hits(test, lines[0]) then [] else lines[0])
    else (if Hits(test, lines[0]) then [] else lines[0] + "\n") + DropLinesFrom(lines[1..], test)
  }

  /** One of lines 240-246. */
  function DropLines(s: string, test: LineTest): string
  {
    DropLinesFrom(Lines(s), test)
  }

  /** Lines 240-246 one after the other. */
  function DropAll(s: string, tests: seq<LineTest>): string
    decreases |tests|
  {
    if tests == [] then s else DropAll(DropLines(s, tests[0]), tests[1..])
  }

  /** Every line left is a line of the input that the test does not hit, or
      the empty line that a deleted last line leaves after the final break. */
  lemma {:induction false} DropLinesFromLines(lines: seq<string>, test: LineTest, l: string)
    requires |lines| >= 1 && forall k :: 0 <= k < |lines| ==> '\n' !in lines[k]
    requires l in Lines(DropLinesFrom(lines, test))
    ensures l == [] || (l in lines && !Hits(test, l))
    decreases |lines|
  {
    var first := lines[0];
    NoCharNotContained(first, '\n');
    if |lines| == 1 {
      if Hits(test, first) {
        SplitAbsent([], "\n");
      } else {
        SplitAbsent(first, "\n");
      }
    } else {
      var rest := lines[1..];
      var r := DropLinesFrom(rest, test);
      if Hits(test, first) {
        assert DropLinesFrom(lines, test) == [] + r == r;
        DropLinesFromLines(rest, test, l);
      } else {
        LinesAround(first, r);
        SplitAbsent(first, "\n");
        assert Lines(first + "\n" + r) == [first] + Lines(r);
        if l != first {
          DropLinesFromLines(rest, test, l);
        }
      }
    }
  }

  lemma DropLinesLeavesNoHit(s: string, test: LineTest, l: string)
    requires l in Lines(DropLines(s, test))
    ensures l == [] || (l in Lines(s) && !Hits(test, l))
  {
    LinesHaveNoNewline(s);
    DropLinesFromLines(Lines(s), test, l);
  }

  /** The condition under which a line survives one test. */
  function NotHit(test: LineTest): string -> bool
  {
    (l: string) => !Hits(test, l)
  }

  /** A deleted last line leaves the empty line after the final break. */
  function Remnant(lastDropped: bool): seq<string>
  {
    if lastDropped then [[]] else []
  }

  /** Exactly the lines the test does not hit are kept, in their order, and
      a deleted last line leaves one empty line behind. */
  lemma {:induction false} DropLinesFromKeeps(lines: seq<string>, test: LineTest)
    requires |lines| >= 1 && forall k :: 0 <= k < |lines| ==> '\n' !in lines[k]
    ensures Lines(DropLinesFrom(lines, test))
      == Filter(lines, NotHit(test)) + Remnant(Hits(test, lines[|lines| - 1]))
    decreases |lines|
  {
    if |lines| == 1 {
      OneLineKept(lines[0], test);
      assert Filter(lines, NotHit(test))
        == (if NotHit(test)(lines[0]) then [lines[0]] else []) + Filter([], NotHit(test));
    } else {
      DropLinesFromKeeps(lines[1..], test);
      KeepsStep(lines, test);
    }
  }

  /** The induction step: the first line goes or stays in front. */
  lemma KeepsStep(lines: seq<string>, test: LineTest)
    requires |lines| > 1 && '\n' !in lines[0]
    requires Lines(DropLinesFrom(lines[1..], test))
      == Filter(lines[1..], NotHit(test)) + Remnant(Hits(test, lines[|lines| - 1]))
    ensures Lines(DropLinesFrom(lines, test))
      == Filter(lines, NotHit(test)) + Remnant(Hits(test, lines[|lines| - 1]))
  {
    var first, rest := lines[0], lines[1..];
    var keep := NotHit(test);
    var r := DropLinesFrom(rest, test);
    var kept := Filter(rest, keep);
    var tail := Remnant(Hits(test, lines[|lines| - 1]));
    assert Filter(lines, keep) == (if keep(first) then [first] else []) + kept;
    if Hits(test, first) {
      assert DropLinesFrom(lines, test) == r by {
        assert [] + r == r;
      }
      assert Filter(lines, keep) == kept by {
        assert !keep(first);
        assert [] + kept == kept;
      }
    } else {
      assert DropLinesFrom(lines, test) == first + "\n" + r;
      KeptLineInFront(first, r);
      ConsAppend(first, kept, tail);
    }
  }

  /** A single line is deleted whole or kept whole. */
  lemma OneLineKept(line: string, test: LineTest)
    requires '\n' !in line
    ensures Lines(if Hits(test, line) then [] else line)
      == (if NotHit(test)(line) then [line] else []) + Remnant(Hits(test, line))
  {
    if Hits(test, line) {
      SplitAbsent([], "\n");
    } else {
      NoCharNotContained(line, '\n');
      SplitAbsent(line, "\n");
    }
  }

  /** A kept line with its break stands in front of the lines after it. */
  lemma KeptLineInFront(line: string, r: string)
    requires '\n' !in line
    ensures Lines(line + "\n" + r) == [line] + Lines(r)
  {
    NoCharNotContained(line, '\n');
    LinesAround(line, r);
    SplitAbsent(line, "\n");
  }

  /** One of lines 240-246 keeps exactly the lines its test does not hit. */
  lemma DropLinesKeeps(s: string, test: LineTest)
    ensures Lines(DropLines(s, test))
      == Filter(Lines(s), NotHit(test)) + Remnant(Hits(test, Last(Lines(s))))
  {
    LinesHaveNoNewline(s);
    DropLinesFromKeeps(Lines(s), test);
  }

  /** The line is hit by none of the tests. */
  predicate HitByNone(tests: seq<LineTest>, l: string)
  {
    forall k :: 0 <= k < |tests| ==> !Hits(tests[k], l)
  }

  function NotHitByAny(tests: seq<LineTest>): string -> bool
  {
    (l: string) => HitByNone(tests, l)
  }

  lemma HitByNoneCons(tests: seq<LineTest>, l: string)
    requires tests != []
    ensures HitByNone(tests, l) <==> !Hits(tests[0], l) && HitByNone(tests[1..], l)
  {
    if !Hits(tests[0], l) && HitByNone(tests[1..], l) {
      forall k | 0 < k < |tests|
        ensures !Hits(tests[k], l)
      {
        assert tests[k] == tests[1..][k - 1];
      }
    }
  }

  /** No valid test hits the empty line. */
  lemma NoneHitsEmpty(tests: seq<LineTest>)
    requires forall j :: 0 <= j < |tests| ==> ValidTest(tests[j])
    ensures HitByNone(tests, [])
  {
    forall k | 0 <= k < |tests|
      ensures !Hits(tests[k], [])
    {
      EmptyLineNotHit(tests[k]);
    }
  }

  /** Lines 240-246 together keep exactly the lines none of the tests hits,
      in their order, and a deleted last line leaves one empty line. */
  lemma {:induction false} DropAllKeeps(s: string, tests: seq<LineTest>)
    requires forall j :: 0 <= j < |tests| ==> ValidTest(tests[j])
    ensures Lines(DropAll(s, tests))
      == Filter(Lines(s), NotHitByAny(tests)) + Remnant(!HitByNone(tests, Last(Lines(s))))
    decreases |tests|
  {
    var lines := Lines(s);
    if tests == [] {
      FilterAll(lines, NotHitByAny(tests));
      assert lines + [] == lines;
    } else {
      var test, rest := tests[0], tests[1..];
      var t := DropLines(s, test);
      var kept := Filter(lines, NotHit(test));
      var tail := Remnant(Hits(test, Last(lines)));
      DropLinesKeeps(s, test);
      DropAllKeeps(t, rest);
      forall l: string
        ensures NotHitByAny(tests)(l) == (NotHit(test)(l) && NotHitByAny(rest)(l))
      {
        HitByNoneCons(tests, l);
      }
      FilterFilter(lines, NotHit(test), NotHitByAny(rest), NotHitByAny(tests));
      FilterAppend(kept, tail, NotHitByAny(rest));
      NoneHitsEmpty(rest);
      if Hits(test, Last(lines)) {
        assert Filter(tail, NotHitByAny(rest)) == tail == [[]];
        assert Last(Lines(t)) == [];
        assert !HitByNone(tests, Last(lines));
      } else {
        assert Filter(tail, NotHitByAny(rest)) == [] == tail;
        assert Lines(t) == kept + [] == kept;
        FilterLastKept(lines, NotHit(test));
        assert Last(Lines(t)) == Last(lines);
        assert HitByNone(tests, Last(lines)) == HitByNone(rest, Last(lines));
      }
    }
  }

  /** Without a line that the test hits, nothing is deleted. */
  lemma {:induction false} DropLinesFromNone(lines: seq<string>, test: LineTest)
    requires |lines| >= 1 && forall k :: 0 <= k < |lines| ==> !Hits(test, lines[k])
    ensures DropLinesFrom(lines, test) == Unlines(lines)
    decreases |lines|
  {
    if |lines| > 1 {
      DropLinesFromNone(lines[1..], test);
      JoinCons(lines[0], lines[1..], "\n");
      assert lines == [lines[0]] + lines[1..];
    }
  }

  lemma DropLinesNone(s: string, test: LineTest)
    requires forall l :: l in Lines(s) ==> !Hits(test, l)
    ensures DropLines(s, test) == s
  {
    DropLinesFromNone(Lines(s), test);
    JoinSplit(s, "\n");
  }

  lemma EmptyLineNotHit(test: LineTest)
    requires ValidTest(test)
    ensures !Hits(test, [])
  {
    match test
    case Mentions(phrase) =>
      assert !(Lower(phrase) <= []);
    case MentionsThen(first, later) =>
      assert !StartsWithCI([], first);
  }

  /** A second deletion pass with the same test changes nothing. */
  lemma DropLinesIdempotent(s: string, test: LineTest)
    requires ValidTest(test)
    ensures DropLines(DropLines(s, test), test) == DropLines(s, test)
  {
    var t := DropLines(s, test);
    forall l | l in Lines(t)
      ensures !Hits(test, l)
    {
      DropLinesLeavesNoHit(s, test, l);
      EmptyLineNotHit(test);
    }
    DropLinesNone(t, test);
  }

  /** The passes only ever remove lines. */
  lemma {:induction false} DropAllLines(s: string, tests: seq<LineTest>, l: string)
    requires l in Lines(DropAll(s, tests))
    ensures l == [] || l in Lines(s)
    decreases |tests|
  {
    if tests != [] {
      var t := DropLines(s, tests[0]);
      DropAllLines(t, tests[1..], l);
      if l != [] {
        DropLinesLeavesNoHit(s, tests[0], l);
      }
    }
  }

  /** After lines 240-246 no line of the text is hit by any of the seven
      tests. */
  lemma {:induction false} DropAllLeavesNoHit(s: string, tests: seq<LineTest>, l: string, k: nat)
    requires forall j :: 0 <= j < |tests| ==> ValidTest(tests[j])
    requires l in Lines(DropAll(s, tests)) && k < |tests|
    ensures !Hits(tests[k], l)
    decreases |tests|
  {
    var t := DropLines(s, tests[0]);
    if k == 0 {
      DropAllLines(t, tests[1..], l);
      if l == [] {
        EmptyLineNotHit(tests[0]);
      } else {
        DropLinesLeavesNoHit(s, tests[0], l);
      }
    } else {
      DropAllLeavesNoHit(t, tests[1..], l, k - 1);
    }
  }

  /** After lines 240-246 no line left mentions any of the footer phrases. */
  lemma FooterLinesGone(s: string, l: string)
    requires l in Lines(DropAll(s, FooterLineTests))
    ensures forall k :: 0 <= k < |FooterLineTests| ==> !Hits(FooterLineTests[k], l)
  {
    var tests := FooterLineTests;
    FooterTestsValid();
    forall k | 0 <= k < |tests|
      ensures !Hits(tests[k], l)
    {
      DropAllLeavesNoHit(s, tests, l, k);
    }
  }

  /** None of the seven tests has an empty first phrase. */
  lemma FooterTestsValid()
    ensures forall j :: 0 <= j < |FooterLineTests| ==> ValidTest(FooterLineTests[j])
  {
  }

  /** Lines 266-267. */
  function DropImagePlaceholders(text: string): string
  {
    ReplaceAll(ReplaceAll(text, "[image]", ""), ImageMarker, "")
  }

  /** The part of the stage after the line deletions, in source order. */
  function BoilerplateTail(t: string, book: RuleBook): string
  {
    var t1 := ApplyRules(book.footerRules, t);        // lines 249-262
    var t2 := ReplaceAll(t1, "[link]", "");           // line 263
    var t3 := DropImagePlaceholders(t2);              // lines 266-267
    var t4 := ApplyRules(book.horizontalRules, t3);   // lines 270-271
    ReplaceChain(t4, Entities)                        // lines 274-298
  }

  /** Lines 274-298 leave a text with no '&' and no '<' as it is: every
      target starts with one of the two. */
  lemma EntitiesLeavePlainText(t: string)
    requires '&' !in t && '<' !in t
    ensures ReplaceChain(t, Entities) == t
  {
    ReplaceChainIdle(t, Entities);
  }

  /** "&amp;" is decoded (line 282) before "&lt;" (line 283), so an escaped
      entity is decoded twice: "&amp;lt;" ends as "<", not as "&lt;". */
  lemma EntityDoubleDecode()
    ensures ReplaceChain("&amp;lt;", Entities) == "<"
  {
    EntityLayout();
    DecodedAfterIdle(Entities);
  }

  /** The facts about lines 274-298 that the double decoding rests on. */
  lemma EntityLayout()
    ensures |Entities| == 25 && Entities[8] == ("&amp;", "&") && Entities[9] == ("&lt;", "<")
    ensures forall k :: 0 <= k < |Entities| ==> |Entities[k].0| >= 2
    ensures forall k :: 0 <= k < 8 ==> Entities[k].0[0] == '&' && Entities[k].0[1] != 'a'
  {
  }

  /** A chain whose first eight targets start with "&" and then not with
      'a', whose next two steps decode "&amp;" and "&lt;", and whose targets
      all have two or more characters, turns "&amp;lt;" into "<". */
  lemma DecodedAfterIdle(pairs: seq<(string, string)>)
    requires |pairs| >= 10 && pairs[8] == ("&amp;", "&") && pairs[9] == ("&lt;", "<")
    requires forall k :: 0 <= k < |pairs| ==> |pairs[k].0| >= 2
    requires forall k :: 0 <= k < 8 ==> pairs[k].0[0] == '&' && pairs[k].0[1] != 'a'
    ensures ReplaceChain("&amp;lt;", pairs) == "<"
  {
    IdleBeforeAmp(pairs);
    ReplaceChainSkip("&amp;lt;", pairs, 8);
    DecodedTwice(pairs[8..]);
  }

  /** No target among the first eight occurs in "&amp;lt;". */
  lemma IdleBeforeAmp(pairs: seq<(string, string)>)
    requires |pairs| >= 8
    requires forall k :: 0 <= k < 8 ==> |pairs[k].0| >= 2 && pairs[k].0[0] == '&' && pairs[k].0[1] != 'a'
    ensures forall k :: 0 <= k < 8 ==> ReplaceAll("&amp;lt;", pairs[k].0, pairs[k].1) == "&amp;lt;"
  {
    var rest := "amp;lt;";
    assert ['&'] + rest == "&amp;lt;" && '&' !in rest && rest[0] == 'a';
    forall k | 0 <= k < 8
      ensures ReplaceAll(['&'] + rest, pairs[k].0, pairs[k].1) == ['&'] + rest
    {
      HeadOnlyFixed('&', rest, pairs[k].0, pairs[k].1);
    }
  }

  /** A chain that replaces "&amp;" by "&", then "&lt;" by "<", and then
      only targets of two or more characters, turns "&amp;lt;" into "<". */
  lemma DecodedTwice(pairs: seq<(string, string)>)
    requires |pairs| >= 2 && pairs[0] == ("&amp;", "&") && pairs[1] == ("&lt;", "<")
    requires forall k :: 0 <= k < |pairs| ==> |pairs[k].0| >= 2
    ensures ReplaceChain("&amp;lt;", pairs) == "<"
  {
    var amp, lt, tail := "&amp;", "&lt;", "lt;";
    assert amp + tail == "&amp;lt;" && "&" + tail == lt && lt + [] == lt && "<" + [] == "<";
    assert '&' !in tail;
    ReplaceChainFront(amp, tail, pairs);
    ReplaceChainFront(lt, [], pairs[1..]);
    OneCharChainFixed('<', pairs[1..][1..]);
  }

  /** The stage, in source order. */
  function CleanBoilerplate(text: string, book: RuleBook): string
  {
    var t1 := KeepFirstMatch(Confidentiality, text, []);   // lines 206-211
    var t2 := ApplyRules(book.asteriskDividers, t1);       // line 214
    var t3 := KeepFirstMatch(Environment, t2, []);         // lines 217-221
    var t4 := ApplyRules(book.noticeBlocks, t3);           // lines 224-237
    var t5 := DropAll(t4, FooterLineTests);                // lines 240-246
    BoilerplateTail(t5, book)
  }

  /** The stage as the source runs it, with its two keep-first loops. */
  method RunBoilerplate(text: string, book: RuleBook) returns (r: string)
    ensures r == CleanBoilerplate(text, book)
  {
    r := KeepFirstOccurrence(Confidentiality, text, []);
    r := ApplyRules(book.asteriskDividers, r);
    r := KeepFirstOccurrence(Environment, r, []);
    r := ApplyRules(book.noticeBlocks, r);
    r := DropAll(r, FooterLineTests);
    r := BoilerplateTail(r, book);
  }

  /** The "[Image]" marker that `clean_markdown_artifacts` puts in place of an
      image reference (lines 150-152) is deleted here (line 267): taken
      together, the two stages drop the reference without a trace. */
  lemma ImageReferenceVanishes(x: string, name: string, y: string)
    requires '[' !in x && '!' !in x && '[' !in y
    requires name != [] && ']' !in name && '[' !in name
    ensures DropImagePlaceholders(MarkImageReferences(x + "[image: " + name + "]" + y)) == x + y
  {
    ImageReferenceMarked(x, name, y);
    MarkerDropped(x, y);
  }

  /** Line 267 removes the marker. */
  lemma MarkerDropped(x: string, y: string)
    requires '[' !in x && '[' !in y
    ensures DropImagePlaceholders(x + ImageMarker + y) == x + y
  {
    var m := ImageMarker + y;
    var rest := "Image]" + y;
    assert m == "[" + rest && m[1..] == rest;
    assert '[' !in rest;
    assert ReplaceAll(x + m, "[image]", "") == x + m by {
      ReplaceAllSkip(x, m, "[image]", "");
      assert !("[image]" <= m) by {
        assert m[1] == 'I';
      }
      assert ReplaceAll(m, "[image]", "") == [m[0]] + ReplaceAll(rest, "[image]", "");
      NoFirstCharNotContained(rest, "[image]");
      ReplaceAbsent(rest, "[image]", "");
    }
    assert ReplaceAll(x + m, ImageMarker, "") == x + y by {
      ReplaceAllSkip(x, m, ImageMarker, "");
      assert ImageMarker <= m;
      assert m[|ImageMarker|..] == y;
      assert ReplaceAll(m, ImageMarker, "") == [] + ReplaceAll(y, ImageMarker, "");
      NoFirstCharNotContained(y, ImageMarker);
      ReplaceAbsent(y, ImageMarker, "");
      assert [] + y == y;
    }
    assert x + ImageMarker + y == x + m;
  }
}
