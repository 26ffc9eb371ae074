# E-mail selection and cleaning, modelled in Dafny

This project models the data-preparation core of an e-mail evaluation tool,
which turns a mailbox export into a review set. It covers four scripts:

- **Record merger.** `email_selector_ui/prepare_data.py` joins each thread's
  metadata row with its full text. It reads the From, To, Subject and Time
  headers out of the first twenty lines and sorts the records by
  `num_memories`, largest first.
- **350-e-mail selector.** `email_selector_ui/select_350_emails.py` filters
  the records into a work pool and a personal pool. The filters are the
  ignore list, the year 2025, at most 20 000 characters and the category.
  Each pool is stratified by the number of "Message N" headers (1, 2, 3 or
  more). Each stratum is sampled greedily under a per-sender cap of 10 that
  both categories share. A shortfall is back-filled from single-message
  threads not yet chosen.
- **Diversity sampler.** `select_emails.py` is the earlier selector. It
  stratifies a category by `num_memories` (low, medium, high), allocates
  each stratum a proportional share of at least one row, back-fills from
  rows not yet sampled and trims to size.
- **Cleaning pipeline.** `email_selector_ui/clean_emails.py` runs nine
  text-to-text stages in a fixed order: tracking URLs, HTML tags,
  attachment metadata, markdown artifacts, duplicate-content removal,
  boilerplate, signatures, quoted replies and whitespace.

Strings are `seq<char>`. Randomness enters as caller-supplied draw streams.
`Shuffling.Shuffle` is the Fisher-Yates walk of `random.shuffle`, and a
frame's `sample(n=k, random_state=s)` is the first `k` rows of such a
shuffle under stream `s`.

Most of the regular-expression catalogue is modelled by `Rules.RuleBook`.
Each `re.sub` line is an opaque `string -> string` rewrite, and a stage
folds its list in source order. These substitutions are spelled out
character by character:

- long markdown links;
- `[image: …]`, `![…](cid:…)` and `[cid:…]` references;
- numeric character references;
- spacer lines and zero-width runs;
- the keep-first patterns.

The literal `replace` chains and the whole-line footer deletions are
modelled exactly as well.

Where a module has a method, the method is the source's loop or in-place
update. Its `ensures` ties the result, or the new state, to a specification
function. The properties are lemmas about those functions.

`remove_duplicate_content` searches the whole stripped piece for
"Message N" with `re.MULTILINE`. A header on any line of the piece counts,
not only one at its start (`Segmenter.HasMessageLine`,
`Segmenter.HeaderOnLaterLine`).

`sample_with_diversity` raises when a category larger than `n` has no row
with a positive `num_memories`. Every stratum is then empty and
`pd.concat([])` fails. The model returns `NoObjectsToConcatenate` in that
case.

## Model

| member | source | states |
|---|---|---|
| Cleaning.RunCleanEmailContent | email_selector_ui/clean_emails.py:428-444 | Reassigning `text` through the nine stages gives `CleanEmailContent`. That is the composition in the fixed order: tracking URLs, HTML, attachments, markdown, duplicates, boilerplate, signatures, quoted replies, whitespace. |
| Cleaning.CleanedContentHasNoInvisibles | email_selector_ui/clean_emails.py:338-351 | Whatever the input and whatever the opaque rules do, the cleaned text contains no U+200B, U+200C, U+200D, U+202F, U+00AD, U+FEFF and no carriage return. |
| Rules.ApplyRulesAppend | email_selector_ui/clean_emails.py:18-114 | Folding two lists of substitutions one after the other equals folding their concatenation, so a stage's substitutions act in their written order. |
| Segmenter.RemoveDuplicateContent | email_selector_ui/clean_emails.py:156-184 | The loop over the pieces returns `Deduplicated(text)`. |
| Segmenter.NoSeparatorUnchanged | email_selector_ui/clean_emails.py:160-163 | A text without "\n---\n" is returned unchanged. |
| Segmenter.SeparatorSplits | email_selector_ui/clean_emails.py:160-163 | A text containing the separator splits into at least two pieces, so the early return happens exactly when there is no separator. |
| Segmenter.MessagePartsMembers | email_selector_ui/clean_emails.py:169-175 | A piece is collected if and only if it is one of the pieces and its stripped form has a "Message <digits>" line. |
| Segmenter.MessagePartsSnoc | email_selector_ui/clean_emails.py:169-175 | Each further piece extends the collection by itself alone when it passes the test, so the collected pieces keep their original order. |
| Segmenter.NoMessageParts | email_selector_ui/clean_emails.py:177-178 | When no piece passes the test nothing is collected. |
| Segmenter.MessagePartsKept | email_selector_ui/clean_emails.py:169-179 | When some piece has a header line, the result is exactly the passing pieces, unstripped and in order, joined by "\n\n". |
| Segmenter.FirstPartKept | email_selector_ui/clean_emails.py:181-184 | When there is a separator and no piece has a header line, the result is the first piece, stripped. |
| Segmenter.HeaderOnLaterLine | email_selector_ui/clean_emails.py:172 | A piece whose "Message N" header sits on its second line still counts as a message piece (the `re.MULTILINE` search). |
| Quotes.CountQuoteDepth | email_selector_ui/clean_emails.py:385-389 | The inner `while` loop returns `QuoteDepth`, the number of leading `>` with whitespace skipped before and between them. |
| Quotes.QuoteDepthStripped | email_selector_ui/clean_emails.py:385 | Leading whitespace does not change a line's quote depth. |
| Quotes.RunSimplifyQuotedReplies | email_selector_ui/clean_emails.py:374-399 | The line loop with its `in_deep_quote` flag returns `SimplifyQuotedReplies(text)`. |
| Quotes.SimplifiedShallow | email_selector_ui/clean_emails.py:392-397 | No output line has quote depth 2 or more. |
| Quotes.SimplifiedFrom | email_selector_ui/clean_emails.py:392-397 | Every output line is an input line or the "[Previous messages truncated]" marker. |
| Quotes.SimplifiedShorter | email_selector_ui/clean_emails.py:383-398 | The output has no more lines than the input. |
| Quotes.SimplifiedKeepsShallow | email_selector_ui/clean_emails.py:392-394 | Lines of depth at most 1 are kept verbatim and in order: input made only of such lines comes back unchanged. |
| Quotes.SimplifiedAppend | email_selector_ui/clean_emails.py:383-398 | Scanning `a + b` is scanning `a`, then scanning `b` from the quote mode in which `a` ends. |
| Quotes.DeepRunSilent | email_selector_ui/clean_emails.py:395-397 | Once inside a deep quote, further deep lines emit nothing. |
| Quotes.DeepRunCollapses | email_selector_ui/clean_emails.py:392-397 | A maximal run of depth-2-or-more lines becomes exactly one marker line, and what comes before and after is simplified independently. |
| Quotes.SimplifyIdempotent | email_selector_ui/clean_emails.py:374-399 | A second application of the stage changes nothing. |
| Patterns.FindAll | email_selector_ui/clean_emails.py:207 | `re.finditer`: the found spans are non-empty, ordered, non-overlapping and inside the text. |
| Patterns.FindAllSound | email_selector_ui/clean_emails.py:207 | Every found span is a match of the pattern at its start position. |
| Patterns.FindAllMissesNothing | email_selector_ui/clean_emails.py:207 | No match of the pattern starts at a position that no found span covers. |
| Patterns.NoticeEnd | email_selector_ui/clean_emails.py:206 | The lazy `.*?` of the confidentiality pattern stops at the first "\n\n", "\n***" or end of text. |
| Patterns.KeepFirstOccurrence | email_selector_ui/clean_emails.py:207-221 | The back-to-front splice loop over `matches[1:]` returns `KeepFirstMatch`: the first match stays and every later match is replaced, with the text between matches untouched. |
| Patterns.KeepFirstLength | email_selector_ui/clean_emails.py:208-211 | With two or more matches, the result's length is the input's minus the later matches' lengths plus one replacement per later match. |
| Signatures.RunSignatures | email_selector_ui/clean_emails.py:365-370 | The loop keeps the first Kreiman signature block and replaces each later one by "\n-- Gabriel Kreiman\n". |
| Boilerplate.RunBoilerplate | email_selector_ui/clean_emails.py:202-300 | The stage, with its two keep-first loops, returns `CleanBoilerplate`: first confidentiality notice and first environment line kept, footer lines deleted, placeholders dropped, entities decoded, in source order. |
| Boilerplate.DropLinesFromKeeps | email_selector_ui/clean_emails.py:240 | Deleting the lines that mention a phrase leaves exactly the lines that do not mention it, verbatim and in their order. A deleted last line leaves one empty line after the final line break. |
| Boilerplate.DropLinesKeeps | email_selector_ui/clean_emails.py:240 | The same for a whole text: its lines afterwards are the non-matching lines of the input, in order, plus one empty line when the last line was deleted. |
| Boilerplate.DropLinesNone | email_selector_ui/clean_emails.py:240 | When no line mentions the phrase, the text is unchanged. |
| Boilerplate.DropLinesIdempotent | email_selector_ui/clean_emails.py:240 | Deleting the lines that mention a phrase a second time changes nothing. |
| Boilerplate.DropAllKeeps | email_selector_ui/clean_emails.py:240-246 | After all the line deletions, the lines left are exactly the input lines that none of the tests hits, in order, plus one empty line when some test hit the last line. |
| Boilerplate.FooterLinesGone | email_selector_ui/clean_emails.py:240-246 | No line left mentions "unsubscribe", "manage preferences", "email preferences", "privacy policy", "view as a web page", "contact us … \|" or "download the latest … app", in any letter case. |
| Boilerplate.EntitiesLeavePlainText | email_selector_ui/clean_emails.py:274-298 | A text with no "&" and no "<" passes the entity chain unchanged. |
| Boilerplate.EntityDoubleDecode | email_selector_ui/clean_emails.py:282-283 | "&amp;" is replaced before "&lt;", so "&amp;lt;" is decoded twice and ends as "<". |
| Boilerplate.MarkerDropped | email_selector_ui/clean_emails.py:266-267 | An "[Image]" marker is deleted by the boilerplate stage. |
| Boilerplate.ImageReferenceVanishes | email_selector_ui/clean_emails.py:150-152 | In a text with no other brackets, the markdown rewrite of lines 150-152 followed directly by the placeholder deletion of lines 266-267 removes an "[image: name]" reference without a trace. The steps that run between them in the pipeline are not applied. |
| Markdown.LongLinkMatches | email_selector_ui/clean_emails.py:127 | The link pattern matches `[label](target)` exactly when the target has at least 80 characters, and then yields the label. |
| Markdown.LongLinkCollapses | email_selector_ui/clean_emails.py:126-130 | A link whose target is 80 or more non-`)` characters collapses to its label. |
| Markdown.ShortLinkKept | email_selector_ui/clean_emails.py:126-130 | A link whose target is shorter than 80 characters is left untouched. |
| Markdown.ImageReferenceMarked | email_selector_ui/clean_emails.py:150-152 | An "[image: name]" reference becomes the "[Image]" marker after all three CID rules. |
| Markdown.NamedReferenceReplaced | email_selector_ui/clean_emails.py:150 | Line 150 replaces an "[image: name]" reference by "[Image]". |
| Markdown.MarkerSurvives | email_selector_ui/clean_emails.py:151-152 | The rules of lines 151 and 152 leave an "[Image]" marker alone. |
| Html.NumericRefMatches | email_selector_ui/clean_emails.py:424 | The pattern `&#\d+;` matches `&#digits;` exactly. |
| Html.NumericRefRemoved | email_selector_ui/clean_emails.py:424 | The first `&#digits;` reference is deleted and the scan resumes after it. |
| Html.NoAmpersandUnchanged | email_selector_ui/clean_emails.py:417-424 | Text without `&` passes the numeric-reference steps unchanged. |
| Html.RemovalCanExposeReference | email_selector_ui/clean_emails.py:424 | One pass is not idempotent: removing "&#1;" from "&#&#1;1;" leaves a fresh reference "&#1;". |
| Whitespace.InvisiblesRemoved | email_selector_ui/clean_emails.py:338-343 | After the replace chain no zero-width space, non-joiner, joiner, narrow no-break space, soft hyphen or byte order mark is left. |
| Whitespace.NormalizeNewlinesClean | email_selector_ui/clean_emails.py:350-351 | After the two newline replacements no carriage return is left, and no other removed character is introduced. |
| Whitespace.SubstitutionsKeepOut | email_selector_ui/clean_emails.py:346-347 | The spacer-line and zero-width-run substitutions introduce no character other than a line break. |
| Whitespace.WhitespaceOutputClean | email_selector_ui/clean_emails.py:302-353 | The output of the whitespace stage contains none of the removed characters and no carriage return. |
| Whitespace.ZeroWidthRunsAlreadyGone | email_selector_ui/clean_emails.py:347 | Line 347 never changes anything: line 339 has already removed every U+200C. |
| Whitespace.InvisiblesChainExact | email_selector_ui/clean_emails.py:338-343 | The replace chain acts on each character alone: a narrow no-break space becomes a space, the zero-width space, non-joiner and joiner, the soft hyphen and the byte order mark are deleted, and every other character is kept in order. |
| Text.ReplaceCharPointwise | email_selector_ui/clean_emails.py:341 | Replacing one character by another keeps the length, and exactly the positions that held it now hold the replacement. |
| Whitespace.NormalizeNewlinesNoReturn | email_selector_ui/clean_emails.py:350-351 | A text without a carriage return is left unchanged. |
| Whitespace.NormalizeNewlinesWindowsEnd | email_selector_ui/clean_emails.py:350 | Each "\r\n" becomes a single "\n", with the text on either side normalised on its own. |
| Whitespace.NormalizeNewlinesLoneReturns | email_selector_ui/clean_emails.py:351 | In a text without "\r\n", every lone "\r" becomes "\n" and every other character stays where it was. |
| Substitution.SpacerLineMatches | email_selector_ui/clean_emails.py:346 | The pattern matches a line made only of spacer characters, together with its two line breaks. |
| Substitution.SpacerLineRemoved | email_selector_ui/clean_emails.py:346 | Such a line is replaced by a single line break. |
| Substitution.ZeroWidthRunsIdle | email_selector_ui/clean_emails.py:347 | Text without U+200C is unchanged by line 347. |
| Mailbox.CountHeadersPositive | email_selector_ui/select_350_emails.py:80 | The header count is positive if and only if some line is a "Message <digits>" header. |
| Mailbox.MessageCountPositive | email_selector_ui/select_350_emails.py:77-80 | A thread's message count is positive exactly when its content has a "Message N" line. |
| Mailbox.MessageCountAppend | email_selector_ui/select_350_emails.py:80 | The count is per line: two texts joined by a line break have the sum of their counts. |
| Mailbox.BucketOf | email_selector_ui/select_350_emails.py:82-91 | The bucket is 1-msg if and only if the count is 0 or 1, 2-msg if and only if it is 2, and 3+msg if and only if it is 3 or more. |
| Mailbox.SenderOfBareAddress | email_selector_ui/select_350_emails.py:93-98 | A From field that is just an address yields that address in lower case. |
| Mailbox.SenderWithoutAddress | email_selector_ui/select_350_emails.py:95-99 | A From field without "@" yields its first 50 lower-cased characters, or "unknown" when empty. |
| Mailbox.FindAddressNone | email_selector_ui/select_350_emails.py:96 | Without "@" the address search finds nothing. |
| Mailbox.LoadIgnoreList | email_selector_ui/select_350_emails.py:31-40 | Each ignore-list entry is kept, equal to the entry read up to letter case and already in lower case. |
| Mailbox.AnyContainedIff | email_selector_ui/select_350_emails.py:51-63 | The loops find an entry if and only if some entry occurs in one of the fields. |
| Mailbox.IsIgnoredIff | email_selector_ui/select_350_emails.py:42-65 | An e-mail is ignored if and only if an ignored sender or domain occurs in its lower-cased From or To, or an ignored pattern occurs in its lower-cased subject, headlines or content. |
| Mailbox.YearIs2025 | email_selector_ui/select_350_emails.py:67-75 | The year is 2025 exactly when the time field starts with "2025". |
| Mailbox.PoolMembers | email_selector_ui/select_350_emails.py:175-188 | An e-mail is in a pool if and only if it is in the input, not ignored, from 2025, at most 20 000 characters long and of exactly that category. |
| Mailbox.PoolOrder | email_selector_ui/select_350_emails.py:175-188 | A pool is a subsequence of the input. |
| Shuffling.ShufflePermutes | email_selector_ui/select_350_emails.py:107-108 | The shuffle is a permutation: same multiset of e-mails. |
| Shuffling.ShuffleMembers | email_selector_ui/select_350_emails.py:107-108 | An e-mail is in the shuffle if and only if it is in the input. |
| Shuffling.ShuffleDistinct | email_selector_ui/select_350_emails.py:107-108 | Shuffling input with distinct thread ids keeps them distinct. |
| SenderCap.SenderCounts.constructor | email_selector_ui/select_350_emails.py:202 | A fresh counter map is empty. |
| SenderCap.SenderCounts.Lookup | email_selector_ui/select_350_emails.py:116 | Reading a sender from the `defaultdict` returns its count (0 when absent) and stores that value for it. |
| SenderCap.SenderCounts.Increment | email_selector_ui/select_350_emails.py:118 | Incrementing raises exactly that sender's count by one and leaves the others. |
| SenderCap.SampleWithGlobalSenderCap | email_selector_ui/select_350_emails.py:101-120 | The loop's selection and the counter's new state equal `Greedy` run over the shuffled e-mails from the old counts. |
| SenderCap.Greedy | email_selector_ui/select_350_emails.py:111-113 | At most `target_count` e-mails are selected. |
| SenderCap.GreedySubsequence | email_selector_ui/select_350_emails.py:107-120 | The selection is a subsequence of the shuffled order. |
| SenderCap.GreedyAccounting | email_selector_ui/select_350_emails.py:115-118 | Every sender's new count is its old count plus the number of selected e-mails it sent, so counts never decrease and only selected senders change. No key is dropped. |
| SenderCap.GreedyCap | email_selector_ui/select_350_emails.py:116-118 | A sender at or below the cap before the call is at or below it after. |
| SenderCap.GreedyAppend | email_selector_ui/select_350_emails.py:111-118 | Running the loop over `a + b` is running it over `a`, then over `b` with the room and counts that `a` left. |
| SenderCap.GreedySkipped | email_selector_ui/select_350_emails.py:111-118 | When fewer than `target_count` are returned, a candidate left out had a sender already at the cap when the loop reached it. |
| SenderCap.GreedyShortfall | email_selector_ui/select_350_emails.py:111-118 | When fewer than `target_count` are returned, a skipped candidate's sender was at the cap when the loop reached each of its positions, and is at the cap at the end. |
| Selection.SampleFrom | email_selector_ui/select_350_emails.py:136 | A greedy sample of a shuffled pool contains only pool members, and no thread twice when the pool has none twice. |
| Selection.SampleBuckets | email_selector_ui/select_350_emails.py:131-143 | The bucket loop's selection, shortfall and counter state equal `BucketPass` from the old counts. |
| Selection.BucketPassSize | email_selector_ui/select_350_emails.py:139-141 | Selected plus shortfall is the sum of the targets, so the shortfall is the sum of `max(0, target - selected)`. |
| Selection.BucketPassMembers | email_selector_ui/select_350_emails.py:131-137 | Every e-mail selected by the bucket loop is from the category and in one of the targeted buckets. |
| Selection.BucketPassDistinct | email_selector_ui/select_350_emails.py:131-137 | With distinct thread ids and distinct buckets, the bucket loop selects no thread twice. |
| Selection.BucketPassAccounting | email_selector_ui/select_350_emails.py:131-137 | Each sender's count grows by exactly its number of selected e-mails and stays within the cap. |
| Selection.SelectWithGlobalCap | email_selector_ui/select_350_emails.py:122-159 | The method's selection and counter state equal `CategoryPick` from the old counts. |
| Selection.Backfill | email_selector_ui/select_350_emails.py:145-156 | The back-fill keeps the bucket selection as a prefix. It adds at most `shortfall` e-mails, all single-message e-mails of the category whose thread id was not selected. |
| Selection.CategorySize | email_selector_ui/select_350_emails.py:131-159 | A category's selection has at most the sum of its targets. |
| Selection.CategoryDistinct | email_selector_ui/select_350_emails.py:131-159 | With distinct thread ids in the pool, a category's selection repeats no thread. |
| Selection.CategoryAccounting | email_selector_ui/select_350_emails.py:131-159 | Each sender's count grows by exactly its selected e-mails and stays within the cap. |
| Selection.CategoryMembers | email_selector_ui/select_350_emails.py:131-159 | Every selected e-mail is from the category's pool. |
| Selection.TargetBucketsDistinct | email_selector_ui/select_350_emails.py:16-26 | The target tables name each bucket once and sum to 200 and 150. |
| Selection.SelectEmails | email_selector_ui/select_350_emails.py:175-212 | Filtering, splitting and the two capped selections sharing one counter return `Selection`. |
| Selection.SelectionSenderCap | email_selector_ui/select_350_emails.py:201-212 | No sender appears more than 10 times in the work and personal selections together. |
| Selection.SelectionSizes | email_selector_ui/select_350_emails.py:205-209 | At most 200 work and 150 personal e-mails are selected. |
| Selection.SelectionFromPools | email_selector_ui/select_350_emails.py:175-188 | Every selected work (personal) e-mail is an input e-mail in the work (personal) pool. |
| Selection.PoolDistinct | email_selector_ui/select_350_emails.py:175-188 | Filtering into a pool keeps thread ids distinct. |
| Selection.SelectionDistinct | email_selector_ui/select_350_emails.py:201-212 | With distinct thread ids in the input, the combined selection repeats no thread. |
| Diversity.CategorySplit | select_emails.py:40-41 | A row is in the work (personal) frame if and only if it is an input row whose category is exactly "work" ("personal"); no row is in both. |
| Diversity.StratumOf | select_emails.py:52-56 | A row is low if and only if `num_memories` is in (0,1], medium if and only if in (1,5], high if and only if above 5, and in no stratum if and only if it is 0 or below. |
| Diversity.ShareBounds | select_emails.py:67-69 | A non-empty stratum's share is at least 1 and at most its size, and at most the truncated proportional share plus one. |
| Diversity.SampleFrom | select_emails.py:70 | A sample draws only rows of its frame, and no thread twice when the frame has none twice. |
| Diversity.AllocateStrata | select_emails.py:62-70 | The stratum loop appends exactly `Allocation`'s frames: one sample per non-empty stratum, in the order low, medium, high. |
| Diversity.AllocationFrom | select_emails.py:62-72 | Every allocated row is a category row of one of the strata sampled, and the concatenation repeats no thread when the category has none twice. |
| Diversity.AllocationEmpty | select_emails.py:62-72 | The allocation is empty exactly when no row falls in any stratum. |
| Diversity.BackfillDraws | select_emails.py:74-79 | The back-fill keeps the result as a prefix and adds `min(n - len(result), len(remaining))` rows, all category rows whose thread is not yet in the result. |
| Diversity.FilledFacts | select_emails.py:74-79 | For a category larger than `n` with distinct threads, the back-filled result has at least `n` rows, all from the category, no thread twice. |
| Diversity.TrimToSize | select_emails.py:82-83 | The trim leaves exactly `n` rows when there were more, all from the result and repeating no thread. |
| Diversity.RunSampleWithDiversity | select_emails.py:45-85 | The sampler's sequence of reassignments returns `SampleWithDiversity`. |
| Diversity.SmallOrUnbucketed | select_emails.py:47-72 | A category of at most `n` rows comes back unchanged. A larger one whose every row has `num_memories` of 0 or below makes `pd.concat` fail. |
| Diversity.ExactSize | select_emails.py:45-85 | A category of more than `n` rows with distinct threads and some positive `num_memories` yields exactly `n` rows, all from the category, no thread twice. |
| PrepareData.CategoryOrUnknown | email_selector_ui/prepare_data.py:81 | The category is never empty. It is "unknown" exactly when the column is missing, empty or "unknown", and otherwise the column's value. |
| PrepareData.FirstLines | email_selector_ui/prepare_data.py:60 | The scanned lines are a prefix of the content's lines: exactly the first 20 when there are more, all of them otherwise. |
| PrepareData.FirstValue | email_selector_ui/prepare_data.py:62-69 | A non-empty field value is the value of some stripped line that starts with the field's prefix. |
| PrepareData.PrefixesExclusive | email_selector_ui/prepare_data.py:62-69 | No line starts with two of the four prefixes, so the `elif` chain never hides one field's line from another. |
| PrepareData.ScanFindsFirstValues | email_selector_ui/prepare_data.py:60-69 | A field still empty at the start of the scan ends as the first non-empty value of its prefix; a field already set stays. |
| PrepareData.ParsedHeadersAreFirstValues | email_selector_ui/prepare_data.py:55-69 | Each parsed header is the first non-empty value of its prefix among the first 20 stripped lines, with every occurrence of the prefix removed. |
| PrepareData.ScanHeaders | email_selector_ui/prepare_data.py:55-69 | The 20-line loop with its `not x_line` guards returns `ParseHeaders`. |
| PrepareData.MergeRowFacts | email_selector_ui/prepare_data.py:40-86 | A record keeps the row's thread id, `num_memories` and raw headlines. Its content is "" for an unknown thread and otherwise the mapped text. Its headline count is 0 when the list is missing or does not decode. Each missing text column becomes "", a present one is kept. Its headers come from the content, or from the preview when the content is empty. Its category is never empty, and is "unknown" exactly when the column is missing, empty or "unknown". |
| PrepareData.BuildRecord | email_selector_ui/prepare_data.py:40-87 | Building one record returns `MergeRow` and reports a match exactly when the content is non-empty. |
| PrepareData.OneRecordPerRow | email_selector_ui/prepare_data.py:37-87 | There is exactly one record per metadata row, record `i` built from row `i`. |
| PrepareData.MatchedCountsRecords | email_selector_ui/prepare_data.py:43-45 | `matched` is the number of records with non-empty content, so it never exceeds the number of records. |
| PrepareData.MergeRows | email_selector_ui/prepare_data.py:37-87 | The row loop returns `Merged` and the matched count. |
| PrepareData.SortIsStableDescending | email_selector_ui/prepare_data.py:92 | The sort orders by `num_memories` descending, is a permutation, and keeps the input order among records with equal `num_memories`. |
| PrepareData.Prepare | email_selector_ui/prepare_data.py:37-92 | The whole merger returns the sorted merged records and the matched count. |
| PrepareData.PreparedList | email_selector_ui/prepare_data.py:37-92 | The final list has one record per row, is descending and stable, is a permutation of the merged records, and `matched` is at most its length. |

## Left out

- File, CSV, gzip and JSON reading and writing, and all `print` output, including the printed percentages of select_emails.py:29-30 and the per-bucket progress lines. These are I/O.
- Script code outside the functions: select_emails.py:14-41 (apart from the category split) and 87-117, and prepare_data.py:8-35 and 89-103. This code loads files, prints and saves, so its only modelled logic is the split and the sort.
- The pseudo-random generators: `random.seed(42)`, `random.shuffle` and `DataFrame.sample(random_state=42/43/44)` become caller-supplied draw streams. The model proves what holds for every stream, not the particular order a Mersenne Twister would produce.
- The regular expressions of email_selector_ui/clean_emails.py:18-114, 122, 136-139, 147, 190-198, 214, 224-237, 249-262, 270-271, 306-309 and 315-335 are opaque rewrites in `Rules.RuleBook`. No regular-expression engine is modelled, so nothing is proved about what those particular substitutions do.
- The keep-first patterns are matched by hand-written matchers, not a regular-expression engine: `Patterns.NoticeEnd` for line 206, and `Patterns.KreimanAt` for the optional lines of line 362. Letter case is ASCII only.
- Unicode case folding: `.lower()` and `re.IGNORECASE` are modelled on ASCII letters only, and `\d` and `\w` on their ASCII members. `\s` and `str.strip()` use Python's full white-space set.
- JSON decoding of `headlines` and pandas NaN values: a row carries the decoded headline count or `None`, and a missing column is `None`. A NaN that is truthy in `or ""` is not modelled.
- Mailbox.Year reads the first four characters as decimal digits only. Python's `int()` also accepts a sign, surrounding spaces and underscores there.
- Diversity.Share uses integer division. The source divides in floating point, which agrees while `n_samples * len(bucket)` is at most 2^53.
- The `mem_bucket` column that `pd.cut` adds to the frame is not kept: the stratum is recomputed by `Diversity.StratumOf`.
- `total_target` of `select_emails_with_global_cap` is not modelled: it is never read.
- `other_parts` of `remove_duplicate_content` is not modelled: it is collected but never read.
- Sender keys: the capped sampler takes the sender function as a parameter, and the whole selection uses `Mailbox.SenderOf`. The lemmas hold for any sender function.
- PrepareData.SortByMemories: the in-place `list.sort` is modelled as a value, by a stable insertion sort, rather than as an update of the list object.
- The entity and invisible-character `replace` chains are written as value functions (`Text.ReplaceChain`): each `text = text.replace(...)` is a pure reassignment.
- There is no claim that `clean_email_content` as a whole is idempotent. The code does not promise it, because a later deletion can join text into a new match; `Html.RemovalCanExposeReference` shows one such case for a single stage.
