/** The minutes extractor: from the generated markdown to a summary, up to five discussion
    points and the action items (`parse_markdown_to_data` in app.py). */
module Minutes {
  import opened Wrappers
  import opened Text
  import opened Scan
  import opened Render

  datatype ActionItem = ActionItem(task: string, owner: string, dueDate: string)

  /** The record the extractor returns. */
  datatype MinutesData = MinutesData(summary: string, discussions: seq<string>, actions: seq<ActionItem>)

  /** The three section headers searched for. */
  const SummarySection: Regex := NumberedSection('4', "Meeting Summary")
  const DiscussionSection: Regex := NumberedSection('5', "Key Discussion")
  const ActionSection: Regex := NumberedSection('7', "Action Items")

  /** How many discussion points are kept, and how much text the last-resort summary keeps. */
  const MaxDiscussions: nat := 5
  const SummaryFallbackLength: nat := 500

  /** `text[:n] + "..."`. */
  function Abbreviated(text: string, n: nat): (r: string)
    ensures |r| == Min(n, |text|) + 3 && EndsWith(r, "...")
    ensures r[..|r| - 3] == text[..Min(n, |text|)]
  {
    text[..Min(n, |text|)] + "..."
  }

  /** The summary: the numbered summary section, else the loosely marked one, else the
      start of the text. */
  function SummaryOf(text: string): (r: string)
    ensures FindCapture(text, SummarySection).Some? || FindCapture(text, LooseSummary).Some?
            ==> IsTrimmed(r, IsSpace)
    ensures FindCapture(text, SummarySection).None? && FindCapture(text, LooseSummary).None?
            ==> EndsWith(r, "...") && |r| <= SummaryFallbackLength + 3
  {
    match FindCapture(text, SummarySection)
    case Some(body) => Strip(body)
    case None =>
      match FindCapture(text, LooseSummary)
      case Some(body) => Strip(body)
      case None => Abbreviated(text, SummaryFallbackLength)
  }

  /** Python's `s[:n]` on a list. */
  function FirstN<T>(s: seq<T>, n: nat): (r: seq<T>)
    ensures r <= s && |r| <= n
    ensures |s| >= n ==> |r| == n
    ensures |s| < n ==> r == s
  {
    if |s| <= n then s else s[..n]
  }

  /** The first bullets of the discussion section, none when the section is missing. */
  function DiscussionsOf(text: string): (r: seq<string>)
    ensures |r| <= MaxDiscussions
    ensures FindCapture(text, DiscussionSection).None? ==> r == []
    ensures FindCapture(text, DiscussionSection).Some? ==>
      var b := Bullets(FindCapture(text, DiscussionSection).value);
      r <= b && (|b| >= MaxDiscussions ==> |r| == MaxDiscussions) && (|b| < MaxDiscussions ==> r == b)
  {
    match FindCapture(text, DiscussionSection)
    case Some(block) => FirstN(Bullets(block), MaxDiscussions)
    case None => []
  }

  /** The action an extracted table row stands for: its three cells stripped. */
  function ToAction(row: RawRow): (a: ActionItem)
    ensures IsTrimmed(a.task, IsSpace) && IsTrimmed(a.owner, IsSpace) && IsTrimmed(a.dueDate, IsSpace)
  {
    ActionItem(Strip(row.first), Strip(row.second), Strip(row.third))
  }

  /** A row is skipped when its task cell looks like a table header or separator. */
  predicate Skipped(row: RawRow)
    ensures !Skipped(row) ==> !Contains(ToAction(row).task, "---") && !Contains(ToAction(row).task, "Task")
  {
    var task := Strip(row.first);
    Contains(task, "---") || Contains(task, "Task")
  }

  /** `[f(x) for x in xs if not skip(x)]`. */
  function FilterMap<A, B>(xs: seq<A>, skip: A -> bool, f: A -> B): (r: seq<B>)
    ensures |r| <= |xs|
    decreases |xs|
  {
    if xs == [] then []
    else if skip(xs[0]) then FilterMap(xs[1..], skip, f)
    else [f(xs[0])] + FilterMap(xs[1..], skip, f)
  }

  /** The actions of the rows that are not skipped, in row order. */
  function KeptActions(rows: seq<RawRow>): (r: seq<ActionItem>)
    ensures forall i :: 0 <= i < |r| ==> !Contains(r[i].task, "---") && !Contains(r[i].task, "Task")
  {
    var r := FilterMap(rows, Skipped, ToAction);
    forall i | 0 <= i < |r| ensures !Contains(r[i].task, "---") && !Contains(r[i].task, "Task") {
      FilterMapMembers(rows, Skipped, ToAction, r[i]);
    }
    r
  }

  /** The action items of the action section's table, none when the section is missing. */
  function ActionsOf(text: string): (r: seq<ActionItem>)
    ensures FindCapture(text, ActionSection).None? ==> r == []
    ensures forall i :: 0 <= i < |r| ==> !Contains(r[i].task, "---") && !Contains(r[i].task, "Task")
  {
    match FindCapture(text, ActionSection)
    case Some(block) => KeptActions(Rows(block))
    case None => []
  }

  /** The whole record, as a function of the text. */
  function MinutesOf(text: string): (r: MinutesData)
    ensures |r.discussions| <= MaxDiscussions
    ensures FindCapture(text, ActionSection).None? ==> r.actions == []
    ensures forall i :: 0 <= i < |r.actions| ==>
      !Contains(r.actions[i].task, "---") && !Contains(r.actions[i].task, "Task")
  {
    MinutesData(SummaryOf(text), DiscussionsOf(text), ActionsOf(text))
  }

  // ---- The extractor as the source runs it ----

  /** Fills the record field by field and appends the kept actions row by row. */
  method ParseMarkdownToData(text: string) returns (data: MinutesData)
    ensures data == MinutesOf(text)
  {
    data := MinutesData("", [], []);
    match FindCapture(text, SummarySection) {
      case Some(body) =>
        data := data.(summary := Strip(body));
      case None =>
        match FindCapture(text, LooseSummary) {
          case Some(body) =>
            data := data.(summary := Strip(body));
          case None =>
            data := data.(summary := Abbreviated(text, SummaryFallbackLength));
        }
    }
    match FindCapture(text, DiscussionSection) {
      case Some(block) =>
        var points := Bullets(block);
        data := data.(discussions := FirstN(points, MaxDiscussions));
      case None =>
    }
    match FindCapture(text, ActionSection) {
      case Some(block) =>
        var actions := CollectActions(Rows(block));
        data := data.(actions := actions);
      case None =>
    }
  }

  /** The loop over the extracted rows: strips the cells, skips header and separator rows
      and appends the rest in order. */
  method CollectActions(rows: seq<RawRow>) returns (actions: seq<ActionItem>)
    ensures actions == KeptActions(rows)
  {
    actions := [];
    var i := 0;
    while i < |rows|
      invariant 0 <= i <= |rows|
      invariant actions == FilterMap(rows[..i], Skipped, ToAction)
    {
      TakeOneMore(rows, i);
      FilterMapSnoc(rows[..i], rows[i], Skipped, ToAction);
      if !Skipped(rows[i]) {
        actions := actions + [ToAction(rows[i])];
      }
      i := i + 1;
    }
    assert rows[..i] == rows;
  }

  // ---- Properties of the actions ----

  /** Filtering two runs one after the other. */
  lemma {:induction false} FilterMapAppend<A, B>(xs: seq<A>, ys: seq<A>, skip: A -> bool, f: A -> B)
    ensures FilterMap(xs + ys, skip, f) == FilterMap(xs, skip, f) + FilterMap(ys, skip, f)
    decreases |xs|
  {
    if xs == [] {
      assert xs + ys == ys;
    } else {
      assert (xs + ys)[0] == xs[0];
      assert (xs + ys)[1..] == xs[1..] + ys;
      FilterMapAppend(xs[1..], ys, skip, f);
      if !skip(xs[0]) {
        ConcatAssoc([f(xs[0])], FilterMap(xs[1..], skip, f), FilterMap(ys, skip, f));
      }
    }
  }

  /** A value is in the result exactly when some element that is not skipped maps to it. */
  lemma {:induction false} FilterMapMembers<A, B>(xs: seq<A>, skip: A -> bool, f: A -> B, b: B)
    ensures b in FilterMap(xs, skip, f) <==> exists i :: 0 <= i < |xs| && !skip(xs[i]) && f(xs[i]) == b
    decreases |xs|
  {
    if xs != [] {
      FilterMapMembers(xs[1..], skip, f, b);
      assert forall i :: 1 <= i < |xs| ==> xs[1..][i - 1] == xs[i];
      if exists i :: 0 <= i < |xs| && !skip(xs[i]) && f(xs[i]) == b {
        var i :| 0 <= i < |xs| && !skip(xs[i]) && f(xs[i]) == b;
        if i > 0 {
          assert xs[1..][i - 1] == xs[i];
        }
      }
    }
  }

  /** One more element adds its image unless it is skipped. */
  lemma FilterMapSnoc<A, B>(xs: seq<A>, x: A, skip: A -> bool, f: A -> B)
    ensures FilterMap(xs + [x], skip, f) == FilterMap(xs, skip, f) + (if skip(x) then [] else [f(x)])
  {
    FilterMapAppend(xs, [x], skip, f);
    assert [x][1..] == [];
  }

  /** An action is kept exactly when some row that is not skipped yields it. */
  lemma KeptActionsMembers(rows: seq<RawRow>, a: ActionItem)
    ensures a in KeptActions(rows) <==> exists i :: 0 <= i < |rows| && !Skipped(rows[i]) && ToAction(rows[i]) == a
  {
    FilterMapMembers(rows, Skipped, ToAction, a);
  }

  /** The actions of rows whose cells are already trimmed, kept as they are. */
  function AsActions(rows: seq<RawRow>): (r: seq<ActionItem>)
    ensures |r| == |rows|
    ensures forall i :: 0 <= i < |rows| ==>
      r[i] == ActionItem(rows[i].first, rows[i].second, rows[i].third)
  {
    seq(|rows|, i requires 0 <= i < |rows| => ActionItem(rows[i].first, rows[i].second, rows[i].third))
  }

  /** A table row the extractor turns into an action: three cells, and a task that is neither
      a header nor a separator. */
  predicate IsActionRow(row: RawRow) {
    IsCellRow(row) && !Contains(row.first, "---") && !Contains(row.first, "Task")
  }

  /** When nothing is skipped, every element is mapped, in order. */
  lemma {:induction false} FilterMapKeepsAll<A, B>(xs: seq<A>, skip: A -> bool, f: A -> B)
    requires forall i :: 0 <= i < |xs| ==> !skip(xs[i])
    ensures |FilterMap(xs, skip, f)| == |xs|
    ensures forall i :: 0 <= i < |xs| ==> FilterMap(xs, skip, f)[i] == f(xs[i])
    decreases |xs|
  {
    if xs != [] {
      assert !skip(xs[0]);
      FilterMapKeepsAll(xs[1..], skip, f);
      assert forall i :: 1 <= i < |xs| ==> xs[1..][i - 1] == xs[i];
    }
  }

  /** An action row is kept, and its cells are carried over unchanged. */
  lemma ActionRowKept(row: RawRow)
    requires IsActionRow(row)
    ensures !Skipped(row) && ToAction(row) == ActionItem(row.first, row.second, row.third)
  {
    StripOfTrimmed(row.first);
    StripOfTrimmed(row.second);
    StripOfTrimmed(row.third);
  }

  /** Rows of trimmed cells that are not skipped become their actions one for one. */
  lemma KeptActionRows(rows: seq<RawRow>)
    requires forall i :: 0 <= i < |rows| ==> IsActionRow(rows[i])
    ensures KeptActions(rows) == AsActions(rows)
  {
    forall i | 0 <= i < |rows|
      ensures !Skipped(rows[i]) && ToAction(rows[i]) == ActionItem(rows[i].first, rows[i].second, rows[i].third)
    {
      ActionRowKept(rows[i]);
    }
    FilterMapKeepsAll(rows, Skipped, ToAction);
  }

  // ---- The extractor on documents made of numbered sections ----

  /** The section titles searched for fit on one line. */
  lemma TitlesOnOneLine()
    ensures '\n' !in "Meeting Summary" && '\n' !in "Key Discussion" && '\n' !in "Action Items"
  {
  }

  /** If a summary section is present, the summary is its body, stripped, whatever preamble
      (a `# Title` line, a metadata table) comes before the sections. */
  lemma SummaryOfSections(pre: string, secs: seq<Section>, body: string)
    requires IsPreamble(pre)
    requires forall i :: 0 <= i < |secs| ==> WellFormed(secs[i])
    requires FirstBody(secs, '4', "Meeting Summary") == Some(body)
    ensures SummaryOf(pre + Sections(secs)) == Strip(body)
  {
    var text := Sections(secs);
    assert FindCapture(pre + text, SummarySection) == Some(body) by {
      TitlesOnOneLine();
      SectionSearch(secs, '4', "Meeting Summary");
      PreambleIgnored(pre, text, '4', "Meeting Summary");
    }
  }

  /** If the discussion section is a bullet list, the discussion points are its first five
      items, in order, whatever preamble comes before the sections. */
  lemma DiscussionsOfSections(pre: string, secs: seq<Section>, points: seq<string>)
    requires IsPreamble(pre)
    requires forall i :: 0 <= i < |secs| ==> WellFormed(secs[i])
    requires forall i :: 0 <= i < |points| ==> IsItem(points[i])
    requires FirstBody(secs, '5', "Key Discussion") == Some(BulletList(points))
    ensures DiscussionsOf(pre + Sections(secs)) == FirstN(points, MaxDiscussions)
  {
    var text := Sections(secs);
    assert FindCapture(pre + text, DiscussionSection) == Some(BulletList(points)) by {
      TitlesOnOneLine();
      SectionSearch(secs, '5', "Key Discussion");
      PreambleIgnored(pre, text, '5', "Key Discussion");
    }
    assert Bullets(BulletList(points)) == points by {
      BulletsOfList(points, []);
      assert BulletList(points) + [] == BulletList(points);
      assert Bullets([]) == [];
      assert points + [] == points;
    }
  }

  /** The header row and the separator row of the action table. */
  const ActionHeader: RawRow := RawRow("Task", "Owner", "Deadline")
  const ActionSeparator: RawRow := RawRow("---", "---", "---")

  /** The header and separator rows are table rows. */
  lemma HeaderRowsAreRows()
    ensures IsCellRow(ActionHeader) && IsCellRow(ActionSeparator)
  {
  }

  /** The header and separator rows are skipped. */
  lemma HeaderRowsSkipped()
    ensures Skipped(ActionHeader) && Skipped(ActionSeparator)
  {
    StripOfTrimmed("Task");
    StripOfTrimmed("---");
    assert StartsWith("Task", "Task");
    assert StartsWith("---", "---");
  }

  /** If the action section's body reads as a header, a separator and action rows, the
      actions are those rows, one for one and in order, whatever preamble comes before the
      sections. */
  lemma ActionsOfTableSection(pre: string, secs: seq<Section>, block: string, rows: seq<RawRow>)
    requires IsPreamble(pre)
    requires forall i :: 0 <= i < |secs| ==> WellFormed(secs[i])
    requires forall i :: 0 <= i < |rows| ==> IsActionRow(rows[i])
    requires FirstBody(secs, '7', "Action Items") == Some(block)
    requires Rows(block) == [ActionHeader, ActionSeparator] + rows
    ensures ActionsOf(pre + Sections(secs)) == AsActions(rows)
  {
    var text := Sections(secs);
    assert FindCapture(pre + text, ActionSection) == Some(block) by {
      TitlesOnOneLine();
      SectionSearch(secs, '7', "Action Items");
      PreambleIgnored(pre, text, '7', "Action Items");
    }
    ActionTableKept(rows);
    KeptActionRows(rows);
  }

  /** If the action section is a table with a header, a separator and action rows, the
      actions are those rows, one for one and in order, whatever preamble comes before the
      sections. */
  lemma ActionsOfSections(pre: string, secs: seq<Section>, rows: seq<RawRow>)
    requires IsPreamble(pre)
    requires forall i :: 0 <= i < |secs| ==> WellFormed(secs[i])
    requires forall i :: 0 <= i < |rows| ==> IsActionRow(rows[i])
    requires FirstBody(secs, '7', "Action Items") == Some(TableText([ActionHeader, ActionSeparator] + rows))
    ensures ActionsOf(pre + Sections(secs)) == AsActions(rows)
  {
    ActionTableRows(rows);
    ActionsOfTableSection(pre, secs, TableText([ActionHeader, ActionSeparator] + rows), rows);
  }

  /** The action table with its separator line written `|---|---|---|`. */
  function CompactActionTable(rows: seq<RawRow>): string {
    RowLine(ActionHeader) + "\n" + CompactRowLine(ActionSeparator) + "\n" + TableText(rows)
  }

  /** The same holds when the separator line is written without blanks, `|---|---|---|`:
      the actions are the rows after it, one for one and in order. */
  lemma ActionsOfCompactSections(pre: string, secs: seq<Section>, rows: seq<RawRow>)
    requires IsPreamble(pre)
    requires forall i :: 0 <= i < |secs| ==> WellFormed(secs[i])
    requires forall i :: 0 <= i < |rows| ==> IsActionRow(rows[i])
    requires FirstBody(secs, '7', "Action Items") == Some(CompactActionTable(rows))
    ensures ActionsOf(pre + Sections(secs)) == AsActions(rows)
  {
    CompactActionTableRows(rows);
    ActionsOfTableSection(pre, secs, CompactActionTable(rows), rows);
  }

  /** The row scanner reads such a table back as its header, separator and rows. */
  lemma CompactActionTableRows(rows: seq<RawRow>)
    requires forall i :: 0 <= i < |rows| ==> IsCellRow(rows[i])
    ensures Rows(CompactActionTable(rows)) == [ActionHeader, ActionSeparator] + rows
  {
    HeaderRowsAreRows();
    HeadedCompactTable(ActionHeader, ActionSeparator, rows);
  }

  /** The row scanner reads an action table back as its header, separator and rows. */
  lemma ActionTableRows(rows: seq<RawRow>)
    requires forall i :: 0 <= i < |rows| ==> IsCellRow(rows[i])
    ensures Rows(TableText([ActionHeader, ActionSeparator] + rows)) == [ActionHeader, ActionSeparator] + rows
  {
    HeaderRowsAreRows();
    HeadedTable(ActionHeader, ActionSeparator, rows);
  }

  /** The header and separator rows contribute no action. */
  lemma ActionTableKept(rows: seq<RawRow>)
    ensures KeptActions([ActionHeader, ActionSeparator] + rows) == KeptActions(rows)
  {
    HeaderRowsSkipped();
    FilterMapAppend([ActionHeader, ActionSeparator], rows, Skipped, ToAction);
    assert [ActionHeader, ActionSeparator][1..] == [ActionSeparator];
    assert [ActionSeparator][1..] == [];
  }

  /** Without a discussion section there are no discussion points, whatever preamble comes
      before the sections. */
  lemma NoDiscussionSection(pre: string, secs: seq<Section>)
    requires IsPreamble(pre)
    requires forall i :: 0 <= i < |secs| ==> WellFormed(secs[i])
    requires FirstBody(secs, '5', "Key Discussion").None?
    ensures DiscussionsOf(pre + Sections(secs)) == []
  {
    assert FindCapture(pre + Sections(secs), DiscussionSection).None? by {
      TitlesOnOneLine();
      SectionSearch(secs, '5', "Key Discussion");
      PreambleIgnored(pre, Sections(secs), '5', "Key Discussion");
    }
  }

  /** Without an action section there are no action items, whatever preamble comes before
      the sections. */
  lemma NoActionSection(pre: string, secs: seq<Section>)
    requires IsPreamble(pre)
    requires forall i :: 0 <= i < |secs| ==> WellFormed(secs[i])
    requires FirstBody(secs, '7', "Action Items").None?
    ensures ActionsOf(pre + Sections(secs)) == []
  {
    assert FindCapture(pre + Sections(secs), ActionSection).None? by {
      TitlesOnOneLine();
      SectionSearch(secs, '7', "Action Items");
      PreambleIgnored(pre, Sections(secs), '7', "Action Items");
    }
  }

  /** Text that has no section marker and never mentions a meeting summary yields the first
      500 characters and `...` as its summary, and nothing else. */
  lemma PlainText(text: string)
    requires '#' !in text
    requires forall j :: 0 <= j <= |text| ==> !StartsWithCI(text[j..], "Meeting Summary")
    ensures MinutesOf(text) == MinutesData(Abbreviated(text, SummaryFallbackLength), [], [])
    ensures |text| <= SummaryFallbackLength ==> MinutesOf(text).summary == text + "..."
  {
    NoSectionWithoutHash(text, '4', "Meeting Summary");
    NoSectionWithoutHash(text, '5', "Key Discussion");
    NoSectionWithoutHash(text, '7', "Action Items");
    NoLooseSummaryWithoutPhrase(text);
    assert text[..|text|] == text;
  }

  /** When the numbered summary section is missing, a `## Meeting Summary` section gives the
      summary: its body stripped, up to the first line that starts with `##`, digits and a dot,
      or a star, or to the end of the text. */
  lemma LooseSummaryTier(body: string, stop: string)
    requires IsLooseBody(body) && (stop == [] || StopsAt(stop, NextLooseHeading))
    requires FindCapture(LooseSummaryHeading + (body + stop), SummarySection).None?
    ensures SummaryOf(LooseSummaryHeading + (body + stop)) == Strip(body)
  {
    var text := LooseSummaryHeading + (body + stop);
    LooseSummaryAt(body, stop);
    MatcherApplies(text, LooseSummary);
    assert text[0..] == text;
    SearchHere(text, 0, Matcher(LooseSummary));
  }

  /** Minutes made of a `## Meeting Summary` heading and a `#`-free loose body take that
      body, stripped, as their summary. */
  lemma LooseSummaryOnly(body: string)
    requires IsLooseBody(body) && '#' !in body
    ensures SummaryOf(LooseSummaryHeading + body) == Strip(body)
  {
    AppendEmpty(body);
    NoSectionInLooseSummary(body, '4', "Meeting Summary");
    LooseSummaryTier(body, []);
  }

  /** Minutes laid out as the parser's patterns read them: a summary section, a
      bullet list of discussion points and a table of action items. */
  function MinutesDocument(summary: string, points: seq<string>, rows: seq<RawRow>): seq<Section> {
    [ Section('4', "Meeting Summary", summary),
      Section('5', "Key Discussion Points", BulletList(points)),
      Section('7', "Action Items", TableText([ActionHeader, ActionSeparator] + rows)) ]
  }

  /** The header and separator rows hold no `#`. */
  lemma HeaderRowsWithoutHash()
    ensures '#' !in "Task" && '#' !in "Owner" && '#' !in "Deadline" && '#' !in "---"
  {
  }

  /** Each heading of the document starts with the words searched for it. */
  lemma HeadingsMatch()
    ensures StartsWithCI("Meeting Summary", "Meeting Summary")
    ensures StartsWithCI("Key Discussion Points", "Key Discussion")
    ensures StartsWithCI("Action Items", "Action Items")
  {
  }

  /** The document's headings are heading lines. */
  lemma HeadingLines()
    ensures IsHeadingLine("Meeting Summary")
    ensures IsHeadingLine("Key Discussion Points")
    ensures IsHeadingLine("Action Items")
  {
  }

  /** The sections of such a document are well formed, and each search finds its own. */
  lemma DocumentSections(summary: string, points: seq<string>, rows: seq<RawRow>)
    requires '#' !in summary
    requires forall i :: 0 <= i < |points| ==> '#' !in points[i]
    requires forall i :: 0 <= i < |rows| ==>
      '#' !in rows[i].first && '#' !in rows[i].second && '#' !in rows[i].third
    ensures var secs := MinutesDocument(summary, points, rows);
      && (forall i :: 0 <= i < |secs| ==> WellFormed(secs[i]))
      && FirstBody(secs, '4', "Meeting Summary") == Some(summary)
      && FirstBody(secs, '5', "Key Discussion") == Some(BulletList(points))
      && FirstBody(secs, '7', "Action Items") == Some(TableText([ActionHeader, ActionSeparator] + rows))
  {
    var secs := MinutesDocument(summary, points, rows);
    var all := [ActionHeader, ActionSeparator] + rows;
    assert '#' !in BulletList(points) by {
      CharNotInBulletList('#', points);
    }
    assert '#' !in TableText(all) by {
      HeaderRowsWithoutHash();
      assert forall i :: 0 <= i < |all| ==> '#' !in all[i].first && '#' !in all[i].second && '#' !in all[i].third;
      CharNotInTable('#', all);
    }
    HeadingLines();
    HeadingsMatch();
    FirstBodiesOfThree(secs, "Meeting Summary", "Key Discussion", "Action Items");
  }

  /** Extracting the minutes of such a document gives back its stripped summary, its first
      five discussion points and one action per table row. */
  lemma ParseRendered(pre: string, summary: string, points: seq<string>, rows: seq<RawRow>)
    requires IsPreamble(pre)
    requires '#' !in summary
    requires forall i :: 0 <= i < |points| ==> IsItem(points[i]) && '#' !in points[i]
    requires forall i :: 0 <= i < |rows| ==>
      IsActionRow(rows[i]) && '#' !in rows[i].first && '#' !in rows[i].second && '#' !in rows[i].third
    ensures MinutesOf(pre + Sections(MinutesDocument(summary, points, rows)))
      == MinutesData(Strip(summary), FirstN(points, MaxDiscussions), AsActions(rows))
  {
    var secs := MinutesDocument(summary, points, rows);
    DocumentSections(summary, points, rows);
    SummaryOfSections(pre, secs, summary);
    DiscussionsOfSections(pre, secs, points);
    ActionsOfSections(pre, secs, rows);
  }

  /** The same under a `# title` line, the way generated minutes open. */
  lemma ParseTitledDocument(title: string, summary: string, points: seq<string>, rows: seq<RawRow>)
    requires '#' !in title
    requires '#' !in summary
    requires forall i :: 0 <= i < |points| ==> IsItem(points[i]) && '#' !in points[i]
    requires forall i :: 0 <= i < |rows| ==>
      IsActionRow(rows[i]) && '#' !in rows[i].first && '#' !in rows[i].second && '#' !in rows[i].third
    ensures MinutesOf("# " + title + "\n" + Sections(MinutesDocument(summary, points, rows)))
      == MinutesData(Strip(summary), FirstN(points, MaxDiscussions), AsActions(rows))
  {
    var line := " " + title + "\n";
    assert '#' !in line;
    TitleLinePreamble(line);
    assert "# " + title + "\n" == "#" + line;
    ParseRendered("#" + line, summary, points, rows);
  }
}
