/** `remove_duplicate_content` (email_selector_ui/clean_emails.py:156-184): a
    thread's text is split on separator lines "---"; when some piece holds a
    "Message N" header, the pieces with headers are the real messages and
    everything else is a quoted copy; otherwise only the first piece is kept. */
module Segmenter {
  import opened Text

  const Separator: string := "\n---\n"

  /** The pattern `^Message \d+` at the start of one line. */
  predicate IsMessageHeader(line: string)
  {
    |line| > 8 && line[..8] == "Message " && IsDigit(line[8])
  }

  /** `re.search(r'^Message \d+', text, re.MULTILINE)`: with MULTILINE, `^`
      matches at the start of every line, so ANY line may carry the header. */
  predicate HasMessageLine(text: string)
  {
    exists line :: line in Lines(text) && IsMessageHeader(line)
  }

  /** The test of line 172, made on the stripped piece. */
  predicate IsMessagePart(part: string)
  {
    HasMessageLine(Strip(part))
  }

  /** The pieces that pass the test, in their original order. */
  function MessageParts(parts: seq<string>): (r: seq<string>)
    ensures |r| <= |parts|
  {
    if parts == [] then []
    else (if IsMessagePart(parts[0]) then [parts[0]] else []) + MessageParts(parts[1..])
  }

  /** Collecting over one more piece extends the collection by that piece
      alone, when it passes the test. */
  lemma {:induction false} MessagePartsSnoc(parts: seq<string>, part: string)
    ensures MessageParts(parts + [part])
         == MessageParts(parts) + (if IsMessagePart(part) then [part] else [])
    decreases |parts|
  {
    if parts == [] {
      assert [] + [part] == [part];
      assert [part][1..] == [];
    } else {
      assert (parts + [part])[1..] == parts[1..] + [part];
      MessagePartsSnoc(parts[1..], part);
    }
  }

  /** What `remove_duplicate_content` returns. */
  function Deduplicated(text: string): string
  {
    var parts := Split(text, Separator);
    if |parts| <= 1 then text
    else
      var messages := MessageParts(parts);
      if messages != [] then Join(messages, "\n\n") else Strip(parts[0])
  }

  /** The source's loop: walk the pieces once, collecting those with a
      header. (`other_parts` is collected by the source but never read, so
      it is not kept here.) */
  method RemoveDuplicateContent(text: string) returns (r: string)
    ensures r == Deduplicated(text)
  {
    var parts := Split(text, Separator);
    if |parts| <= 1 {
      return text;
    }
    var messageParts: seq<string> := [];
    var i := 0;
    while i < |parts|
      invariant 0 <= i <= |parts|
      invariant messageParts == MessageParts(parts[..i])
    {
      var part := parts[i];
      assert parts[..i + 1] == parts[..i] + [part];
      MessagePartsSnoc(parts[..i], part);
      if HasMessageLine(Strip(part)) {
        messageParts := messageParts + [part];
      }
      i := i + 1;
    }
    assert parts[..i] == parts;
    if messageParts != [] {
      r := Join(messageParts, "\n\n");
    } else {
      r := Strip(parts[0]);
    }
  }

  /** A piece is kept exactly when it passes the header test. */
  lemma {:induction false} MessagePartsMembers(parts: seq<string>, p: string)
    ensures p in MessageParts(parts) <==> p in parts && IsMessagePart(p)
    decreases |parts|
  {
    if parts != [] {
      MessagePartsMembers(parts[1..], p);
      assert parts == [parts[0]] + parts[1..];
    }
  }

  /** Without a header piece nothing is kept. */
  lemma {:induction false} NoMessageParts(parts: seq<string>)
    requires forall p :: p in parts ==> !IsMessagePart(p)
    ensures MessageParts(parts) == []
    decreases |parts|
  {
    if parts != [] {
      assert parts[0] in parts;
      NoMessageParts(parts[1..]);
    }
  }

  /** A text without a separator comes back unchanged. */
  lemma NoSeparatorUnchanged(text: string)
    requires !Contains(text, Separator)
    ensures Deduplicated(text) == text
  {
    SplitAbsent(text, Separator);
  }

  /** When some piece has a header, the result is exactly the header pieces,
      unstripped and in their original order, joined by a blank line; every
      other piece is dropped. */
  lemma MessagePartsKept(text: string, p: string)
    requires p in Split(text, Separator) && IsMessagePart(p)
    ensures Deduplicated(text) == Join(MessageParts(Split(text, Separator)), "\n\n")
  {
    var parts := Split(text, Separator);
    var messages := MessageParts(parts);
    MessagePartsMembers(parts, p);
    if |parts| <= 1 {
      assert parts == [p];
      JoinSplit(text, Separator);
      assert messages == [p];
    }
  }

  /** When no piece has a header and the separator occurs, the result is the
      first piece, stripped. */
  lemma FirstPartKept(text: string)
    requires Contains(text, Separator)
    requires forall p :: p in Split(text, Separator) ==> !IsMessagePart(p)
    ensures Deduplicated(text) == Strip(Split(text, Separator)[0])
  {
    SeparatorSplits(text);
    NoMessageParts(Split(text, Separator));
  }

  /** A text holding the separator splits into at least two pieces. */
  lemma SeparatorSplits(text: string)
    requires Contains(text, Separator)
    ensures |Split(text, Separator)| >= 2
  {
    SplitFromFindsSeparator(text, []);
  }

  lemma {:induction false} SplitFromFindsSeparator(s: string, cur: string)
    requires Contains(s, Separator)
    ensures |SplitFrom(s, Separator, cur)| >= 2
    decreases |s|
  {
    if Separator <= s {
    } else {
      assert s != [] && Contains(s[1..], Separator);
      SplitFromFindsSeparator(s[1..], cur + [s[0]]);
    }
  }

  /** The header test of line 172 looks at every line of a piece, not only
      its first: a piece whose first line is anything at all and whose
      second line is "Message N..." counts as a message. */
  lemma HeaderOnLaterLine(first: string, header: string)
    requires first != [] && !IsSpace(first[0])
    requires IsMessageHeader(header) && '\n' !in header
    requires !IsSpace(header[|header| - 1])
    ensures IsMessagePart(first + "\n" + header)
  {
    var p := first + "\n" + header;
    assert p[0] == first[0];
    assert p[|p| - 1] == header[|header| - 1];
    assert LStrip(p) == p;
    assert RStrip(p) == p;
    LinesAround(first, header);
    NoCharNotContained(header, '\n');
    SplitAbsent(header, "\n");
    assert header in Lines(p);
  }
}
