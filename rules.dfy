/** The regular-expression substitutions of the cleaning pipeline that this
    model does not spell out character by character. Each such `re.sub` is a
    `Rewrite`: a total text-to-text function. A stage applies its list of
    rewrites in order, as the source applies its `text = re.sub(...)` lines. */
module Rules {

  type Rewrite = string -> string

  /** Apply the rewrites left to right: `rules[0]` first. */
  function ApplyRules(rules: seq<Rewrite>, text: string): string
    decreases |rules|
  {
    if rules == [] then text else ApplyRules(rules[1..], rules[0](text))
  }

  /** Applying two lists one after the other is applying their concatenation:
      the fold keeps the written order of the substitutions. */
  lemma {:induction false} ApplyRulesAppend(a: seq<Rewrite>, b: seq<Rewrite>, text: string)
    ensures ApplyRules(a + b, text) == ApplyRules(b, ApplyRules(a, text))
    decreases |a|
  {
    if a != [] {
      assert (a + b)[1..] == a[1..] + b;
      ApplyRulesAppend(a[1..], b, a[0](text));
    } else {
      assert a + b == b;
    }
  }

  /** The catalogue of substitutions, one list per block of `re.sub` lines of
      email_selector_ui/clean_emails.py, in source order within each list. */
  datatype RuleBook = RuleBook(
    trackingUrls: seq<Rewrite>,      // lines 18-114: tracking and redirect URLs
    htmlTags: seq<Rewrite>,          // lines 405-414: anchor, image, layout and other tags
    attachmentBlocks: seq<Rewrite>,  // lines 190-198: MIME header blocks and stray header lines
    markdownImages: seq<Rewrite>,    // line 122: markdown images
    markdownEmpty: seq<Rewrite>,     // lines 136-139: empty links and empty parentheses
    markdownHeadings: seq<Rewrite>,  // line 147: leading "##" heading markers
    asteriskDividers: seq<Rewrite>,  // line 214: lines of three or more asterisks
    noticeBlocks: seq<Rewrite>,      // lines 224-237: notice-of-confidentiality and data-protection blocks
    footerRules: seq<Rewrite>,       // lines 249-262: Forbes and airline footers, mailto links, "[link]" leftovers
    horizontalRules: seq<Rewrite>,   // lines 270-271: dash and asterisk rules
    blankLines: seq<Rewrite>,        // lines 306-309: runs of blank lines, trailing blanks
    layoutLeftovers: seq<Rewrite>    // lines 315-335: "[...]", pipes, brackets, base64 runs, underscores, broken links
  )
}
