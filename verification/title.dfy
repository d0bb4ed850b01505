/** Choosing the title of the analysed meeting (app.py): the metadata table's title cell,
    else the first `# ` heading unless it mentions a summary, else a timestamped placeholder. */
module Title {
  import opened Wrappers
  import opened Text
  import opened Scan
  import opened Render

  /** The title used when the minutes offer none; `timestamp` is the formatted clock time. */
  function Placeholder(timestamp: string): string {
    "Meeting " + timestamp
  }

  /** The title chosen for `minutes`. */
  function TitleOf(minutes: string, timestamp: string): (r: string)
    ensures r == Placeholder(timestamp) || IsTrimmed(r, IsSpace)
    ensures FindCapture(minutes, MetadataTitle).None? ==>
      r == Placeholder(timestamp) || !Contains(r, "Summary")
  {
    match FindCapture(minutes, MetadataTitle)
    case Some(cell) => Strip(cell)
    case None =>
      match FindCapture(minutes, Heading)
      case Some(line) =>
        var candidate := Strip(line);
        if Contains(candidate, "Summary") then Placeholder(timestamp) else candidate
      case None => Placeholder(timestamp)
  }

  /** The title as the source computes it: a placeholder first, overwritten by what the
      searches find. */
  method ResolveTitle(minutes: string, timestamp: string) returns (title: string)
    ensures title == TitleOf(minutes, timestamp)
  {
    title := Placeholder(timestamp);
    var titleMatch := FindCapture(minutes, MetadataTitle);
    if titleMatch.Some? {
      title := Strip(titleMatch.value);
    } else {
      var fallback := FindCapture(minutes, Heading);
      if fallback.Some? {
        var candidate := Strip(fallback.value);
        if !Contains(candidate, "Summary") {
          title := candidate;
        }
      }
    }
  }

  /** A title row in the metadata table decides the title, whatever follows it and whatever
      bars (the table's header and separator rows, say) come before it. */
  lemma TitleFromMetadata(pre: string, title: string, post: string, timestamp: string)
    requires '*' !in pre && IsCell(title)
    ensures TitleOf(pre + TitleRow(title) + post, timestamp) == title
  {
    TitleRowFound(pre, title, post);
    StripOfTrimmed(title);
  }

  /** The `| Field | Detail |` header and separator rows of the metadata table. */
  const MetadataHeader: string := "| Field | Detail |\n| --- | --- |\n"

  /** Minutes that open with the metadata table take the title from its title row. */
  lemma TitleAfterMetadataHeader(title: string, post: string, timestamp: string)
    requires IsCell(title)
    ensures TitleOf(MetadataHeader + TitleRow(title) + post, timestamp) == title
  {
    TitleFromMetadata(MetadataHeader, title, post, timestamp);
  }

  /** Without a title row, the first `# ` heading gives the title unless it mentions
      "Summary" (case-sensitively), in which case the placeholder is kept. */
  lemma TitleFromHeading(pre: string, line: string, post: string, timestamp: string)
    requires '#' !in pre && '\n' !in line && (post == [] || post[0] == '\n')
    requires FindCapture(pre + "# " + line + post, MetadataTitle).None?
    ensures TitleOf(pre + "# " + line + post, timestamp)
      == if Contains(Strip(line), "Summary") then Placeholder(timestamp) else Strip(line)
  {
    HeadingFound(pre, line, post);
  }

  /** The heading search also matches the last `#` of a `###` heading: without a title row,
      when the first heading is a numbered section, its text decides the title. */
  lemma TitleFromSectionHeading(pre: string, rest: string, post: string, timestamp: string)
    requires '#' !in pre && '\n' !in rest && (post == [] || post[0] == '\n')
    requires FindCapture(pre + "### " + rest + post, MetadataTitle).None?
    ensures TitleOf(pre + "### " + rest + post, timestamp)
      == if Contains(Strip(rest), "Summary") then Placeholder(timestamp) else Strip(rest)
  {
    HeadingInsideH3(pre, rest, post);
  }

  /** Minutes without the title label or a `#` get the placeholder. */
  lemma TitleWithoutMarkers(minutes: string, timestamp: string)
    requires !Contains(minutes, TitleLabel) && '#' !in minutes
    ensures TitleOf(minutes, timestamp) == Placeholder(timestamp)
  {
    NoTitleRowWithoutLabel(minutes);
    NoHeadingWithoutHash(minutes);
  }

  /** The heading line of the summary section that the summary search looks for. */
  const SummaryHeading: string := "4. Meeting Summary"

  lemma SummaryHeadingMentionsSummary()
    ensures '\n' !in SummaryHeading && '*' !in SummaryHeading && IsTrimmed(SummaryHeading, IsSpace)
    ensures Contains(SummaryHeading, "Summary")
  {
    var rest := SummaryHeading;
    assert rest[11..] == "Summary";
    assert StartsWith(rest[11..], "Summary");
    assert Contains(rest[11..], "Summary");
    ContainsFrom(rest, 11, "Summary");
  }

  /** Minutes that open with the summary section and have no metadata title row (an action
      table may follow) fall back to the placeholder, since the heading search stops inside
      `### 4. Meeting Summary`. */
  lemma SummaryHeadingFirst(post: string, timestamp: string)
    requires !Contains(post, TitleLabel) && (post == [] || post[0] == '\n')
    ensures TitleOf("### " + SummaryHeading + post, timestamp) == Placeholder(timestamp)
  {
    var rest := SummaryHeading;
    SummaryHeadingMentionsSummary();
    StripOfTrimmed(rest);
    AppendEmpty("### ");
    var text := [] + "### " + rest + post;
    assert !Contains(text, TitleLabel) by {
      assert TitleLabel[0] == '*';
      assert text == ("### " + rest) + post;
      if Contains(text, TitleLabel) {
        ContainsPastPrefix("### " + rest, post, TitleLabel);
      }
    }
    NoTitleRowWithoutLabel(text);
    TitleFromSectionHeading([], rest, post, timestamp);
  }
}
