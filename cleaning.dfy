/** `clean_email_content` (email_selector_ui/clean_emails.py:428-444): the nine
    cleaning stages, always in the same order. */
module Cleaning {
  import opened Text
  import opened Rules
  import opened Html
  import opened Markdown
  import opened Segmenter
  import opened Boilerplate
  import opened Signatures
  import opened Quotes
  import opened Whitespace

  /** Lines 433-442: each stage is handed the output of the one before. */
  function CleanEmailContent(content: string, book: RuleBook): string
  {
    var text := ApplyRules(book.trackingUrls, content);   // clean_tracking_urls
    var text := CleanHtml(text, book);                     // clean_html_tags
    var text := ApplyRules(book.attachmentBlocks, text);  // remove_attachment_metadata
    var text := CleanMarkdown(text, book);                 // clean_markdown_artifacts
    var text := Deduplicated(text);                        // remove_duplicate_content
    var text := CleanBoilerplate(text, book);              // clean_boilerplate
    var text := CleanSignatures(text);                     // clean_signatures
    var text := SimplifyQuotedReplies(text);               // simplify_quoted_replies
    CleanWhitespace(text, book)                            // clean_whitespace
  }

  /** No zero-width space, non-joiner or joiner, narrow no-break space, soft
      hyphen, byte order mark or carriage return survives the pipeline. */
  lemma CleanedContentHasNoInvisibles(content: string, book: RuleBook, c: char)
    requires Removed(c)
    ensures c !in CleanEmailContent(content, book)
  {
    var t2 := CleanHtml(ApplyRules(book.trackingUrls, content), book);
    var t4 := CleanMarkdown(ApplyRules(book.attachmentBlocks, t2), book);
    var t7 := CleanSignatures(CleanBoilerplate(Deduplicated(t4), book));
    WhitespaceOutputClean(SimplifyQuotedReplies(t7), book, c);
  }

  /** The pipeline as the source writes it: one reassignment of `text` per
      stage. */
  method RunCleanEmailContent(content: string, book: RuleBook) returns (text: string)
    ensures text == CleanEmailContent(content, book)
  {
    text := content;
    text := ApplyRules(book.trackingUrls, text);
    text := CleanHtml(text, book);
    text := ApplyRules(book.attachmentBlocks, text);
    text := CleanMarkdown(text, book);
    text := RemoveDuplicateContent(text);
    text := RunBoilerplate(text, book);
    text := RunSignatures(text);
    text := RunSimplifyQuotedReplies(text);
    text := CleanWhitespace(text, book);
  }
}
