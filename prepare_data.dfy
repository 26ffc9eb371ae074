/** The record merger of email_selector_ui/prepare_data.py (lines 37-92):
    each metadata row is joined with its thread's full text, the sender,
    recipient, subject and time are read from the first twenty lines of that
    text (or of the preview), and the records are sorted by `num_memories`,
    largest first. */
module PrepareData {
  import opened Text
  import opened Seqs
  import opened Mailbox

  /** One row of the metadata table. `headlineCount` is the length of the
      decoded `headlines` JSON list, or `None` when the column is missing or
      does not decode; an optional text column is `None` when missing. */
  datatype MetaRow = MetaRow(
    threadId: string,
    numMemories: int,
    headlines: string,
    headlineCount: Option<nat>,
    topics: Option<string>,
    people: Option<string>,
    anchors: Option<string>,
    emailPreview: Option<string>,
    category: Option<string>)

  /** `row.get(k, "") or ""`. */
  function OrEmpty(v: Option<string>): (r: string)
    ensures v.Some? ==> r == v.value
    ensures v.None? ==> r == ""
  {
    if v.Some? then v.value else ""
  }

  /** Line 81: `row.get("personal_or_work", "unknown") or "unknown"`; an
      empty label is falsy and also becomes "unknown". */
  function CategoryOrUnknown(v: Option<string>): (r: string)
    ensures r != ""
    ensures r == "unknown" <==> v.None? || v.value == "" || v.value == "unknown"
    ensures v.Some? && v.value != "" ==> r == v.value
  {
    if v.Some? && v.value != "" then v.value else "unknown"
  }

  /** Lines 48-51 and 74: the headline count, 0 when the list is missing or
      does not decode. */
  function NumHeadlines(count: Option<nat>): (r: nat)
    ensures count.None? ==> r == 0
    ensures count.Some? ==> r == count.value
  {
    if count.Some? then count.value else 0
  }

  // ---------------------------------------------------------------------
  // Header scan (lines 54-69)

  /** Line 60: at most this many lines are looked at. */
  const ScanLimit := 20

  datatype Headers = Headers(from: string, to: string, subject: string, time: string)

  const NoHeaders := Headers("", "", "", "")

  /** Line 60: `content.split("\n")[:20]`. */
  function FirstLines(content: string): (r: seq<string>)
    ensures |r| <= ScanLimit && r <= Lines(content)
    ensures |Lines(content)| <= ScanLimit ==> r == Lines(content)
    ensures |r| == if |Lines(content)| <= ScanLimit then |Lines(content)| else ScanLimit
  {
    var lines := Lines(content);
    if |lines| <= ScanLimit then lines else lines[..ScanLimit]
  }

  /** Lines 63, 65, 67, 69: every occurrence of the prefix removed, then
      stripped. */
  function HeaderValue(line: string, prefix: string): string
    requires |prefix| > 0
  {
    Strip(ReplaceAll(line, prefix, ""))
  }

  /** Lines 61-69 for one line: the stripped line feeds the first field whose
      prefix it starts with, if that field is still empty. */
  function ScanLine(h: Headers, raw: string): Headers
  {
    var line := Strip(raw);
    if "From:" <= line && h.from == "" then h.(from := HeaderValue(line, "From:"))
    else if "To:" <= line && h.to == "" then h.(to := HeaderValue(line, "To:"))
    else if "Subject:" <= line && h.subject == "" then h.(subject := HeaderValue(line, "Subject:"))
    else if "Time:" <= line && h.time == "" then h.(time := HeaderValue(line, "Time:"))
    else h
  }

  function ScanLines(h: Headers, lines: seq<string>): Headers
    decreases |lines|
  {
    if lines == [] then h else ScanLines(ScanLine(h, lines[0]), lines[1..])
  }

  /** The headers of a text, as lines 55-69 compute them. */
  function ParseHeaders(content: string): Headers
  {
    ScanLines(NoHeaders, FirstLines(content))
  }

  /** Reference definition of one field: the value of the first stripped
      line that starts with the prefix and gives a non-empty value, or the
      empty string when there is none. */
  function FirstValue(lines: seq<string>, prefix: string): (r: string)
    requires |prefix| > 0
    ensures r != "" ==> exists i :: 0 <= i < |lines| && prefix <= Strip(lines[i])
                                     && r == HeaderValue(Strip(lines[i]), prefix)
    decreases |lines|
  {
    if lines == [] then ""
    else
      var line := Strip(lines[0]);
      if prefix <= line && HeaderValue(line, prefix) != "" then HeaderValue(line, prefix)
      else
        var r := FirstValue(lines[1..], prefix);
        assert r != "" ==> exists i :: 0 <= i < |lines| && prefix <= Strip(lines[i])
                                       && r == HeaderValue(Strip(lines[i]), prefix) by {
          if r != "" {
            var i :| 0 <= i < |lines[1..]| && prefix <= Strip(lines[1..][i])
                     && r == HeaderValue(Strip(lines[1..][i]), prefix);
            assert lines[i + 1] == lines[1..][i];
          }
        }
        r
  }

  /** A stripped line starts with at most one of the four prefixes, so the
      `elif` chain never hides one field's line from another. */
  lemma PrefixesExclusive(line: string)
    ensures !("From:" <= line && "To:" <= line)
    ensures !("From:" <= line && "Subject:" <= line)
    ensures !("From:" <= line && "Time:" <= line)
    ensures !("To:" <= line && "Subject:" <= line)
    ensures !("To:" <= line && "Time:" <= line)
    ensures !("Subject:" <= line && "Time:" <= line)
  {
    assert "From:" <= line ==> line[0] == 'F';
    assert "To:" <= line ==> line[0] == 'T' && line[1] == 'o';
    assert "Subject:" <= line ==> line[0] == 'S';
    assert "Time:" <= line ==> line[0] == 'T' && line[1] == 'i';
  }

  /** Each field the scan fills is the field's first non-empty value: a
      field once set is never overwritten, and a line that gives the empty
      value leaves it open for a later line. */
  lemma {:induction false} ScanFindsFirstValues(h: Headers, lines: seq<string>)
    ensures ScanLines(h, lines).from == (if h.from != "" then h.from else FirstValue(lines, "From:"))
    ensures ScanLines(h, lines).to == (if h.to != "" then h.to else FirstValue(lines, "To:"))
    ensures ScanLines(h, lines).subject == (if h.subject != "" then h.subject else FirstValue(lines, "Subject:"))
    ensures ScanLines(h, lines).time == (if h.time != "" then h.time else FirstValue(lines, "Time:"))
    decreases |lines|
  {
    if lines != [] {
      PrefixesExclusive(Strip(lines[0]));
      ScanFindsFirstValues(ScanLine(h, lines[0]), lines[1..]);
    }
  }

  /** The parsed headers are the first non-empty values among the first
      twenty lines. */
  lemma ParsedHeadersAreFirstValues(content: string)
    ensures var h := ParseHeaders(content);
            var lines := FirstLines(content);
            h == Headers(FirstValue(lines, "From:"), FirstValue(lines, "To:"),
                         FirstValue(lines, "Subject:"), FirstValue(lines, "Time:"))
  {
    ScanFindsFirstValues(NoHeaders, FirstLines(content));
  }

  /** Lines 55-69 as the script runs them: four variables updated line by
      line. */
  method ScanHeaders(content: string) returns (h: Headers)
    ensures h == ParseHeaders(content)
  {
    var fromLine, toLine, subjectLine, timeLine := "", "", "", "";
    var lines := FirstLines(content);
    for i := 0 to |lines|
      invariant ScanLines(Headers(fromLine, toLine, subjectLine, timeLine), lines[i..]) == ParseHeaders(content)
    {
      assert lines[i..][1..] == lines[i + 1..];
      var line := Strip(lines[i]);
      if "From:" <= line && fromLine == "" {
        fromLine := HeaderValue(line, "From:");
      } else if "To:" <= line && toLine == "" {
        toLine := HeaderValue(line, "To:");
      } else if "Subject:" <= line && subjectLine == "" {
        subjectLine := HeaderValue(line, "Subject:");
      } else if "Time:" <= line && timeLine == "" {
        timeLine := HeaderValue(line, "Time:");
      }
    }
    assert lines[|lines|..] == [];
    h := Headers(fromLine, toLine, subjectLine, timeLine);
  }

  // ---------------------------------------------------------------------
  // One record per row (lines 37-87)

  /** Line 43: `content_map.get(thread_id, "")`. */
  function ContentOf(contentMap: map<string, string>, threadId: string): (r: string)
    ensures threadId !in contentMap ==> r == ""
    ensures threadId in contentMap ==> r == contentMap[threadId]
  {
    if threadId in contentMap then contentMap[threadId] else ""
  }

  /** Line 54: the text the headers are read from. */
  function ParsingSource(full: string, row: MetaRow): (r: string)
    ensures full != "" ==> r == full
    ensures full == "" ==> r == OrEmpty(row.emailPreview)
  {
    if full != "" then full else OrEmpty(row.emailPreview)
  }

  /** Lines 40-86: the record built for one row. */
  function MergeRow(row: MetaRow, contentMap: map<string, string>): Email
  {
    var full := ContentOf(contentMap, row.threadId);
    var h := ParseHeaders(ParsingSource(full, row));
    Email(row.threadId, row.numMemories, NumHeadlines(row.headlineCount), row.headlines,
          OrEmpty(row.topics), OrEmpty(row.people), OrEmpty(row.anchors), full,
          OrEmpty(row.emailPreview), CategoryOrUnknown(row.category),
          h.from, h.to, h.subject, h.time)
  }

  /** A row's record keeps its thread, memory count and raw headlines,
      carries the thread's text (empty when the thread has none), counts the
      headlines (0 when they do not decode), turns each missing text column
      into "" and a missing or empty category into "unknown", and takes its
      headers from the thread's text, or from the preview when the text is
      empty. */
  lemma MergeRowFacts(row: MetaRow, contentMap: map<string, string>)
    ensures var e := MergeRow(row, contentMap);
            e.threadId == row.threadId && e.numMemories == row.numMemories
            && e.headlines == row.headlines
            && (row.threadId !in contentMap ==> e.fullContent == "")
            && (e.fullContent != "" ==> row.threadId in contentMap && e.fullContent == contentMap[row.threadId])
            && (row.threadId in contentMap ==> e.fullContent == contentMap[row.threadId])
            && (row.headlineCount.None? ==> e.numHeadlines == 0)
            && (row.headlineCount.Some? ==> e.numHeadlines == row.headlineCount.value)
            && (row.topics.Some? ==> e.topics == row.topics.value) && (row.topics.None? ==> e.topics == "")
            && (row.people.Some? ==> e.people == row.people.value) && (row.people.None? ==> e.people == "")
            && (row.anchors.Some? ==> e.anchors == row.anchors.value) && (row.anchors.None? ==> e.anchors == "")
            && (row.emailPreview.Some? ==> e.emailPreview == row.emailPreview.value)
            && (row.emailPreview.None? ==> e.emailPreview == "")
            && Headers(e.from, e.to, e.subject, e.time)
               == ParseHeaders(if e.fullContent != "" then e.fullContent else e.emailPreview)
            && e.category != ""
            && (e.category == "unknown" <==> row.category.None? || row.category.value in {"", "unknown"})
  {
  }

  /** Lines 37-87 before the sort: one record per row, in row order. */
  function Merged(rows: seq<MetaRow>, contentMap: map<string, string>): (r: seq<Email>)
    ensures |r| == |rows|
  {
    if rows == [] then [] else [MergeRow(rows[0], contentMap)] + Merged(rows[1..], contentMap)
  }

  /** Exactly one record per row, in row order. */
  lemma {:induction false} OneRecordPerRow(rows: seq<MetaRow>, contentMap: map<string, string>)
    ensures |Merged(rows, contentMap)| == |rows|
    ensures forall i :: 0 <= i < |rows| ==> Merged(rows, contentMap)[i] == MergeRow(rows[i], contentMap)
    decreases |rows|
  {
    if rows != [] {
      OneRecordPerRow(rows[1..], contentMap);
      forall i | 0 <= i < |rows|
        ensures Merged(rows, contentMap)[i] == MergeRow(rows[i], contentMap)
      {
        if i > 0 {
          assert Merged(rows, contentMap)[i] == Merged(rows[1..], contentMap)[i - 1];
          assert rows[1..][i - 1] == rows[i];
        }
      }
    }
  }

  /** Lines 44-45: the rows whose thread has non-empty text. */
  function MatchedCount(rows: seq<MetaRow>, contentMap: map<string, string>): nat
  {
    if rows == [] then 0
    else (if ContentOf(contentMap, rows[0].threadId) != "" then 1 else 0) + MatchedCount(rows[1..], contentMap)
  }

  /** The matched count is the number of records with non-empty text, so it
      never exceeds the number of records. */
  lemma {:induction false} MatchedCountsRecords(rows: seq<MetaRow>, contentMap: map<string, string>)
    ensures MatchedCount(rows, contentMap)
            == |Filter(Merged(rows, contentMap), (e: Email) => e.fullContent != "")|
    ensures MatchedCount(rows, contentMap) <= |Merged(rows, contentMap)|
    decreases |rows|
  {
    if rows != [] {
      MatchedCountsRecords(rows[1..], contentMap);
      assert Merged(rows, contentMap)[1..] == Merged(rows[1..], contentMap);
    }
  }

  /** Lines 40-86 as the script runs them for one row: the text lookup,
      the header scan and the record. */
  method BuildRecord(row: MetaRow, contentMap: map<string, string>) returns (email: Email, found: bool)
    ensures email == MergeRow(row, contentMap)
    ensures found <==> email.fullContent != ""
  {
    var fullContent := ContentOf(contentMap, row.threadId);
    found := fullContent != "";
    var h := ScanHeaders(ParsingSource(fullContent, row));
    email := Email(row.threadId, row.numMemories, NumHeadlines(row.headlineCount), row.headlines,
                   OrEmpty(row.topics), OrEmpty(row.people), OrEmpty(row.anchors), fullContent,
                   OrEmpty(row.emailPreview), CategoryOrUnknown(row.category),
                   h.from, h.to, h.subject, h.time);
  }

  /** Lines 37-87: the row loop appends one record per row and counts the
      rows whose text was found. */
  method MergeRows(rows: seq<MetaRow>, contentMap: map<string, string>) returns (emails: seq<Email>, matched: nat)
    ensures emails == Merged(rows, contentMap)
    ensures matched == MatchedCount(rows, contentMap)
  {
    emails := [];
    matched := 0;
    for i := 0 to |rows|
      invariant emails == Merged(rows[..i], contentMap)
      invariant matched == MatchedCount(rows[..i], contentMap)
    {
      var email, found := BuildRecord(rows[i], contentMap);
      assert emails + [email] == Merged(rows[..i + 1], contentMap)
             && matched + (if found then 1 else 0) == MatchedCount(rows[..i + 1], contentMap) by {
        AppendRow(rows[..i], rows[i], contentMap);
        assert rows[..i + 1] == rows[..i] + [rows[i]];
      }
      if found {
        matched := matched + 1;
      }
      emails := emails + [email];
    }
    assert rows[..|rows|] == rows;
  }

  /** Merging one more row appends its record and counts it when its text
      was found. */
  lemma {:induction false} AppendRow(rows: seq<MetaRow>, row: MetaRow, contentMap: map<string, string>)
    ensures Merged(rows + [row], contentMap) == Merged(rows, contentMap) + [MergeRow(row, contentMap)]
    ensures MatchedCount(rows + [row], contentMap)
            == MatchedCount(rows, contentMap) + (if ContentOf(contentMap, row.threadId) != "" then 1 else 0)
    decreases |rows|
  {
    if rows != [] {
      assert (rows + [row])[1..] == rows[1..] + [row];
      AppendRow(rows[1..], row, contentMap);
    }
  }

  // ---------------------------------------------------------------------
  // The final sort (line 92)

  /** `list.sort(key=lambda x: -x["num_memories"])`, which is stable: the
      record goes in front of the first record with no more memories. */
  function Insert(e: Email, sorted: seq<Email>): (r: seq<Email>)
    ensures |r| == |sorted| + 1
    decreases |sorted|
  {
    if sorted == [] || e.numMemories >= sorted[0].numMemories then [e] + sorted
    else [sorted[0]] + Insert(e, sorted[1..])
  }

  function SortByMemories(emails: seq<Email>): (r: seq<Email>)
    ensures |r| == |emails|
    decreases |emails|
  {
    if emails == [] then [] else Insert(emails[0], SortByMemories(emails[1..]))
  }

  predicate Descending(xs: seq<Email>)
  {
    forall i, j :: 0 <= i < j < |xs| ==> xs[i].numMemories >= xs[j].numMemories
  }

  /** The records with a given memory count, in list order. */
  function WithMemories(xs: seq<Email>, k: int): seq<Email>
  {
    Filter(xs, (e: Email) => e.numMemories == k)
  }

  /** Inserting keeps every record and adds the new one. */
  lemma {:induction false} InsertPermutes(e: Email, sorted: seq<Email>)
    ensures multiset(Insert(e, sorted)) == multiset{e} + multiset(sorted)
    decreases |sorted|
  {
    if !(sorted == [] || e.numMemories >= sorted[0].numMemories) {
      InsertPermutes(e, sorted[1..]);
      assert sorted == [sorted[0]] + sorted[1..];
    }
  }

  /** A record no smaller than every record of a descending list can head it. */
  lemma DescendingCons(x: Email, ys: seq<Email>)
    requires Descending(ys)
    requires forall y :: y in ys ==> x.numMemories >= y.numMemories
    ensures Descending([x] + ys)
  {
    var r := [x] + ys;
    forall i, j | 0 <= i < j < |r|
      ensures r[i].numMemories >= r[j].numMemories
    {
      assert r[j] == ys[j - 1];
      if i > 0 {
        assert r[i] == ys[i - 1];
      }
    }
  }

  lemma DescendingTail(ys: seq<Email>)
    requires Descending(ys) && ys != []
    ensures Descending(ys[1..])
    ensures forall y :: y in ys[1..] ==> ys[0].numMemories >= y.numMemories
  {
    forall i, j | 0 <= i < j < |ys[1..]|
      ensures ys[1..][i].numMemories >= ys[1..][j].numMemories
    {
      assert ys[1..][i] == ys[i + 1] && ys[1..][j] == ys[j + 1];
    }
  }

  /** Inserting adds the new record and nothing else. */
  lemma {:induction false} InsertMembers(e: Email, sorted: seq<Email>, x: Email)
    requires x in Insert(e, sorted)
    ensures x == e || x in sorted
    decreases |sorted|
  {
    if !(sorted == [] || e.numMemories >= sorted[0].numMemories) {
      if x != sorted[0] {
        InsertMembers(e, sorted[1..], x);
      }
    }
  }

  /** Inserting into a descending list keeps it descending. */
  lemma {:induction false} InsertDescending(e: Email, sorted: seq<Email>)
    requires Descending(sorted)
    ensures Descending(Insert(e, sorted))
    decreases |sorted|
  {
    if sorted == [] || e.numMemories >= sorted[0].numMemories {
      if sorted != [] {
        DescendingTail(sorted);
      }
      DescendingCons(e, sorted);
    } else {
      DescendingTail(sorted);
      var rest := Insert(e, sorted[1..]);
      InsertDescending(e, sorted[1..]);
      forall x | x in rest
        ensures sorted[0].numMemories >= x.numMemories
      {
        InsertMembers(e, sorted[1..], x);
      }
      DescendingCons(sorted[0], rest);
    }
  }

  /** Inserting into a descending list puts the new record in front of
      every record with its memory count. */
  lemma {:induction false} InsertStable(e: Email, sorted: seq<Email>, k: int)
    requires Descending(sorted)
    ensures WithMemories(Insert(e, sorted), k)
            == (if e.numMemories == k then [e] else []) + WithMemories(sorted, k)
    decreases |sorted|
  {
    if !(sorted == [] || e.numMemories >= sorted[0].numMemories) {
      DescendingTail(sorted);
      InsertStable(e, sorted[1..], k);
      assert Insert(e, sorted) == [sorted[0]] + Insert(e, sorted[1..]);
    }
  }

  /** Sorting orders the records by memory count, largest first, keeps
      every record, and keeps records with equal counts in their original
      order. */
  lemma {:induction false} SortIsStableDescending(emails: seq<Email>, k: int)
    ensures Descending(SortByMemories(emails))
    ensures multiset(SortByMemories(emails)) == multiset(emails)
    ensures WithMemories(SortByMemories(emails), k) == WithMemories(emails, k)
    decreases |emails|
  {
    if emails != [] {
      SortIsStableDescending(emails[1..], k);
      InsertDescending(emails[0], SortByMemories(emails[1..]));
      InsertPermutes(emails[0], SortByMemories(emails[1..]));
      InsertStable(emails[0], SortByMemories(emails[1..]), k);
      assert emails == [emails[0]] + emails[1..];
    }
  }

  /** The whole of lines 37-92: merge, count, then sort. */
  method Prepare(rows: seq<MetaRow>, contentMap: map<string, string>) returns (emails: seq<Email>, matched: nat)
    ensures emails == SortByMemories(Merged(rows, contentMap))
    ensures matched == MatchedCount(rows, contentMap)
  {
    emails, matched := MergeRows(rows, contentMap);
    emails := SortByMemories(emails);
  }

  /** The prepared list holds one record per row, largest memory count
      first, rows of equal count in row order, and the matched count never
      exceeds it. */
  lemma PreparedList(rows: seq<MetaRow>, contentMap: map<string, string>, k: int)
    ensures var emails := SortByMemories(Merged(rows, contentMap));
            |emails| == |rows| && Descending(emails)
            && multiset(emails) == multiset(Merged(rows, contentMap))
            && WithMemories(emails, k) == WithMemories(Merged(rows, contentMap), k)
            && MatchedCount(rows, contentMap) <= |emails|
  {
    SortIsStableDescending(Merged(rows, contentMap), k);
    MatchedCountsRecords(rows, contentMap);
  }
}
