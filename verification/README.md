# Meeting minutes extractor — a Dafny model

This project models the logic of the "minutes-meeting" tool: a recording is transcribed, a
language model writes markdown minutes, and the app turns that markdown into a record. The
record holds a summary, up to five discussion points and the action items. The app also picks
a title for the meeting and keeps the results in the browser session. The command-line tool
picks an audio source, downloads URLs, prints a transcript preview and saves the minutes under
a name derived from the audio file.

Modules:

- `Text` (text.dfy): the Python string operations the code uses: `strip`, `split(c)[0]`,
  `split(c)[-1]`, `in`, `startswith`, and the `\s` character class.
- `Scan` (scan.dfy): the regular expressions of app.py as explicit scanners.
  - `FindCapture` is `re.search(...).group(1)`: the capture at the leftmost position where an
    anchored matcher succeeds.
  - `Bullets` and `Rows` are the two `re.findall` calls.
  - The lazy cell groups `\s*(.*?)\s*\|` of the table-row and title patterns are modelled with
    their backtracking: `MatchCells`, `TryGroup`, `GroupEndsAt`, `CellsAfterBar`.
  - Section bodies `(.*?)(?=\n###|\Z)` under DOTALL are `UpTo`.
- `Render` (render.dfy): documents laid out as app.py's patterns read them (app.py:59-60, 86).
  These are numbered `###` sections, `- item` lists and pipe tables, each with the round trip
  the parser relies on (the scanners read back what was rendered).
- `Minutes` (minutes.dfy): `parse_markdown_to_data`.
  - `MinutesOf` is the specification.
  - `ParseMarkdownToData` and `CollectActions` are the step-by-step method and loop of the source.
- `Title` (title.dfy): the title resolution of the analysis step.
- `Session` (session.dfy): the session keys an analysis stores and "New Meeting" deletes.
- `Download` (download.dfy): the local file name of a downloaded recording, and both
  `download_file` helpers.
- `Cli` (cli.dfy): `main` of the command-line tool: source priority, URL routing, the
  existence check, the preview and the output file name.

The clock, the transcriber, the language model, the network, `input()` and the file system are
parameters (`timestamp`, `World`, `fetched`).

Behaviour of the code that the model keeps, and that a reader might not expect:

- The fallback summary pattern needs its marker (`##`, digits and a dot, or stars), then
  optional whitespace, then "Meeting Summary" (app.py:73). So `##Meeting Summary` matches,
  and a heading that merely contains the phrase after other words does not.
- A numbered section's body ends at the next `\n###`, whatever heading level follows it
  (app.py:68, 80, 87).
- The title's heading fallback is `# ` anywhere in the text, not only a top-level heading
  line (app.py:195). So a `### 4. Meeting Summary` heading that comes first is found. Its
  text mentions "Summary", so the placeholder is kept (`Title.SummaryHeadingFirst`).
- The web app's `download_file` returns nothing even when the download succeeds (see
  Findings).

## Model

| member | source | states |
|---|---|---|
| Minutes.ParseMarkdownToData | app.py:52-111 | The method that fills the record field by field returns exactly `MinutesOf(text)`: the summary, the first five bullets of the discussion section and the kept action rows. |
| Minutes.CollectActions | app.py:94-103 | The loop over the extracted rows returns `KeptActions(rows)`: stripped cells, header and separator rows skipped, the others in order. |
| Minutes.Abbreviated | app.py:77 | `text[:500] + "..."`: the result is the first `min(500, len)` characters followed by `...`. |
| Minutes.SummaryOf | app.py:67-77 | The summary is stripped when the numbered or the fallback section is found; otherwise it is the cut-off text ending in `...`, at most 503 characters long. |
| Minutes.LooseSummaryTier | app.py:71-75 | When the numbered search fails, `## Meeting Summary` over a body none of whose lines starts with `#`, `*` or a digit gives that body stripped, up to the next line starting with `##`, digits and a dot, or `*`, or up to the end. |
| Minutes.LooseSummaryOnly | app.py:67-75 | Minutes made of `## Meeting Summary` and a `#`-free such body have no numbered section, and their summary is the body stripped. |
| Minutes.FirstN | app.py:83 | `bullet_points[:5]`: a prefix of the bullets, of length 5 when there are at least five, all of them otherwise. |
| Minutes.DiscussionsOf | app.py:80-83 | At most five discussion points; none when the `### 5. Key Discussion` search fails; otherwise a prefix of the section's bullets, five long or all of them. |
| Minutes.KeptActions | app.py:94-103 | No kept action has a task containing `---` or (case-sensitively) `Task`. |
| Minutes.ActionsOf | app.py:87-103 | No actions when the `### 7. Action Items` search fails; no action task contains `---` or `Task`. |
| Minutes.ToAction | app.py:95-97 | A row's task, owner and due date are its cells with no whitespace left at either end. |
| Minutes.Skipped | app.py:99-101 | A row that is not skipped yields a task containing neither `---` nor `Task`. |
| Minutes.MinutesOf | app.py:52-111 | The record has at most five discussion points, no actions when the action section is missing, and no action whose task contains `---` or `Task`. |
| Minutes.FilterMap | app.py:94-103 | The filtered list is never longer than the rows. |
| Minutes.FilterMapAppend | app.py:94-103 | Filtering two runs of rows one after the other gives the concatenation of their results. |
| Minutes.FilterMapMembers | app.py:94-103 | A value is in the result exactly when some row that is not skipped maps to it. |
| Minutes.FilterMapSnoc | app.py:100-103 | One more row appends its action unless it is skipped. |
| Minutes.KeptActionsMembers | app.py:94-103 | An action is kept exactly when some non-skipped row yields it. |
| Minutes.FilterMapKeepsAll | app.py:94-103 | When no row is skipped, every row yields exactly one action, in order. |
| Minutes.ActionRowKept | app.py:95-103 | A row of trimmed cells whose task has no `---` or `Task` is kept with its cells verbatim. |
| Minutes.KeptActionRows | app.py:92-103 | Such rows become their actions one for one, in order, without defaulting. |
| Minutes.AsActions | app.py:103 | One action per row, carrying its three cells as task, owner and due date. |
| Minutes.HeaderRowsSkipped | app.py:99-101 | The table header `Task` row and the `---` separator row are skipped. |
| Minutes.ActionTableKept | app.py:99-101 | Header and separator rows in front of a table contribute no action. |
| Minutes.ActionTableRows | app.py:92 | The row pattern reads a rendered action table back as its header, separator and rows. |
| Minutes.SummaryOfSections | app.py:68-70 | When a `### 4. Meeting Summary` section is present, after any preamble without `###` that does not end in `#` (a `# Title` line, a metadata table), the summary is its body up to the next `\n###` or the end, stripped. |
| Minutes.DiscussionsOfSections | app.py:80-83 | When the discussion section is a bullet list, after any preamble without `###` that does not end in `#` (a `# Title` line, a metadata table), the discussion points are its first five items, in order. |
| Minutes.ActionsOfSections | app.py:87-103 | When the action section is a header, a separator and action rows, after any preamble without `###` that does not end in `#` (a `# Title` line, a metadata table), the actions are those rows, one for one and in order. |
| Minutes.ActionsOfTableSection | app.py:87-103 | When the action section's body reads as a header, a separator and action rows, after such a preamble, the actions are those rows, one for one and in order. |
| Minutes.ActionsOfCompactSections | app.py:87-103 | The same when the separator line is written without blanks around its three `---` cells. |
| Minutes.NoDiscussionSection | app.py:57 | Without a discussion section, after any preamble without `###` that does not end in `#` (a `# Title` line, a metadata table), there are no discussion points. |
| Minutes.NoActionSection | app.py:57 | Without an action section, after any preamble without `###` that does not end in `#` (a `# Title` line, a metadata table), there are no actions. |
| Minutes.PlainText | app.py:73-77 | A text with no `#` and no "Meeting Summary" gives `text[:500] + "..."`, no points and no actions; a text of at most 500 characters is returned whole plus `...`. |
| Minutes.DocumentSections | app.py:68 | In a document of sections 4, 5 and 7, each section search finds its own section's body. |
| Minutes.ParseRendered | app.py:52-111 | Extracting a rendered document, after any preamble without `###` that does not end in `#` (a `# Title` line, a metadata table), gives its stripped summary, its first five points and one action per table row. |
| Minutes.ParseTitledDocument | app.py:52-111 | The same for a document that opens with a `# title` line. |
| Scan.UpTo | app.py:68 | The lazy DOTALL body group stops at the first `\n###` (or loose marker line) and runs to the end when there is none. |
| Scan.MatchSection | app.py:68 | The numbered-section pattern matches only where `###` starts. |
| Scan.MatchLooseSummary | app.py:73 | The fallback summary pattern matches only where a loose marker (`##`, digits and a dot, or a star) starts. |
| Scan.MatchTitleRow | app.py:190 | The title-row pattern matches only at a bar, and its captured cell is on one line. |
| Scan.MatchHeading | app.py:195 | `# (.*)` matches exactly where `# ` starts, and captures at most the rest of that line. |
| Scan.SectionBody | app.py:68 | `.*?\n(.*?)` matches exactly when a newline follows the heading words. |
| Scan.LooseMarkerEnd | app.py:73 | After a loose marker (`##`, digits and a dot, or stars) the match goes on at a strictly shorter suffix of the text. |
| Scan.MatchCells | app.py:92 | The `k` cell groups, when they match, are `k` cells without line breaks, followed by a strictly shorter rest of the text. |
| Scan.TryGroup | app.py:92 | The lazy group `(.*?)` grows one character at a time and never across a newline. |
| Scan.GroupEndsAt | app.py:92 | A group ending at position `n` yields `k` newline-free cells and consumes past `n`. |
| Scan.CellsAfterBar | app.py:92 | After a cell, the bar and the remaining `k - 1` cells give `k` newline-free cells. |
| Scan.Bullets | app.py:82 | Every bullet found is one line that does not start with whitespace. |
| Scan.Rows | app.py:92 | Every row found has three newline-free cells. |
| Scan.SearchLeftmost | app.py:68 | The search finds something exactly when the pattern matches at some position, and then it is the capture at the leftmost such position. |
| Scan.Search | app.py:68 | `re.search` from a position: the matcher's capture at the first position from there on where it matches (definition; `Scan.SearchLeftmost` states its meaning in both directions). |
| Scan.FindCapture | app.py:68-195 | `re.search(pattern, text).group(1)` for each of the four patterns, or nothing (definition; `Scan.FindCaptureLeftmost` states its meaning). |
| Scan.FindCaptureLeftmost | app.py:68 | `re.search` returns group 1 at the leftmost matching position, and nothing when the pattern matches nowhere. |
| Scan.SearchShift | app.py:68 | What precedes a position does not change what the search finds from there. |
| Scan.SearchPasses | app.py:68 | Positions where the pattern does not match are passed over. |
| Scan.SearchHere | app.py:68 | The search stops at the first position where the pattern matches. |
| Scan.MatcherApplies | app.py:68-195 | Each pattern's matcher (the section, fallback-summary, title-row and heading patterns of app.py:68, 73, 190 and 195) is that pattern tried at the start of the text. |
| Render.SectionSearch | app.py:68 | In well-formed sections, the numbered-section search captures exactly the body of the first section with that number and words. |
| Render.FirstBodiesOfThree | app.py:68 | In sections numbered 4, 5 and 7, each number's search finds its own body. |
| Render.NoSectionWithoutHash | app.py:80-88 | Text without `#` holds no numbered section. |
| Render.NoLooseSummaryWithoutPhrase | app.py:73-74 | Text that never mentions "Meeting Summary" (in any case) holds no loose summary section. |
| Render.LooseSummaryNeedsPhrase | app.py:73 | A loose summary match implies the phrase "Meeting Summary" occurs in the text. |
| Render.UpToLooseBody | app.py:73 | The lazy body of the fallback pattern runs over a body none of whose lines starts a marker, and stops at the next marker line or the end. |
| Render.LooseSummaryAt | app.py:73 | The fallback pattern at `## Meeting Summary` and a line break captures the body after it. |
| Render.NoSectionInLooseSummary | app.py:68 | A `## Meeting Summary` heading over a `#`-free body holds no numbered section. |
| Render.PreambleIgnored | app.py:68 | A preamble without `###` that does not end in `#` does not change what a numbered-section search finds after it. |
| Render.NoMarkerInPreamble | app.py:68 | No `###` starts inside such a preamble, even where it runs into the text after it. |
| Render.HashFreePreamble | app.py:68 | Text without `#` is such a preamble. |
| Render.TitleLinePreamble | app.py:68 | A `#` followed by `#`-free text, such as a `# Title` line, is such a preamble. |
| Render.MatchCellsRendered | app.py:92 | Rendered cells (a blank, the cell, a blank, a bar) are read back exactly, whatever follows the last bar. |
| Render.RowsOfTable | app.py:92 | `findall` of the row pattern over a rendered table returns its rows, in order. |
| Render.HeadedTable | app.py:92 | A header row and a separator row in front of the rows are read back too. |
| Render.CompactFirstCell | app.py:92 | A cell followed at once by its bar, with no blanks around it, is matched exactly by the cell pattern. |
| Render.MatchCellsCompact | app.py:92 | Cells written without blanks are matched exactly, whatever follows the last bar. |
| Render.CompactRowLineStep | app.py:92 | `findall` reads a row written without blanks around its cells as that row and resumes on the next line. |
| Render.HeadedCompactTable | app.py:92 | A table whose separator line has no blanks around its `---` cells reads back as its header, separator and rows. |
| Render.RowAcrossLineBreak | app.py:92 | The row pattern's `\s*` crosses a newline: a bar at the end of one line starts a row on the next. |
| Render.BulletsOfList | app.py:82 | `findall` of the bullet pattern over a rendered list returns its items, in order. |
| Render.BulletInsideLine | app.py:82 | The bullet pattern is not anchored to line starts: `foo - bar` yields `bar`. |
| Render.BulletAcrossLineBreak | app.py:82 | The bullet pattern's `\s+` crosses a newline: a lone `-` takes the next line as its item. |
| Render.TitleRowFound | app.py:189-192 | A title row after star-free text is what the metadata search captures, so the metadata table's `Field`/`Detail` header and separator rows before it do not matter. |
| Render.NoTitleRowWithoutBar | app.py:190-191 | Text without a bar holds no title row. |
| Render.NoTitleRowWithoutLabel | app.py:190 | Text that never contains `**1. Meeting Title**` holds no title row. |
| Render.NoTitleRowBefore | app.py:190 | No title row starts inside star-free text followed by a bar. |
| Render.HeadingFound | app.py:195 | The heading search captures the rest of the first `# ` line. |
| Render.NoHeadingWithoutHash | app.py:195 | Text without `#` holds no `# ` heading. |
| Render.HeadingInsideH3 | app.py:195 | The heading search also matches inside `### `, at its last `#`. |
| Title.ResolveTitle | app.py:187-199 | The title is reassigned step by step as in the source, and the result is `TitleOf(minutes, timestamp)`. |
| Title.TitleOf | app.py:187-199 | The title is the placeholder or a stripped text; when no title row is found, a title other than the placeholder never contains "Summary". |
| Title.TitleFromMetadata | app.py:189-192 | A metadata title row decides the title: its trimmed cell, whatever follows it and whatever star-free text (table header rows included) precedes it. |
| Title.TitleAfterMetadataHeader | app.py:189-192 | Minutes that open with the metadata table's `Field`/`Detail` header and separator rows and then the title row take that row's title. |
| Title.TitleFromHeading | app.py:193-199 | Whenever the title-row search fails (action tables and other bars allowed), the first `# ` line gives the title unless it contains "Summary"; then the placeholder is kept. |
| Title.TitleFromSectionHeading | app.py:193-199 | Whenever the title-row search fails and the first `#` starts a `###` heading, that heading's text decides the title. |
| Title.TitleWithoutMarkers | app.py:187-199 | Minutes without the title label `**1. Meeting Title**` and without `#` get `"Meeting " + timestamp`. |
| Title.SummaryHeadingFirst | app.py:193-199 | Minutes that open with `### 4. Meeting Summary` and have no title row keep the placeholder, whatever tables follow. |
| Session.Cleared | app.py:117-119 | The four result keys are removed, and every other key stays with its value. |
| Session.Stored | app.py:203-206 | An analysis stores the minutes, transcript, parsed record and title under their keys, and leaves every other key as it was. |
| Session.Analyzed | app.py:203-206 | After an analysis the upload form is hidden, and "New Meeting" then gives back the session as it was before the analysis, minus old results. |
| Session.ClearedAfterStored | app.py:115-132 | "New Meeting" after an analysis returns to the session as it was minus the results, and the upload form is shown again. |
| Session.ClearedIdempotent | app.py:115-119 | Pressing "New Meeting" twice is pressing it once. |
| Session.SessionState.NewMeeting | app.py:115-119 | The loop deleting each present key leaves the session `Cleared(old(state))`. |
| Session.SessionState.Analyze | app.py:184-206 | The session after an analysis is `Analyzed(old(state), ...)`: the parsed record and the resolved title are stored. |
| Download.LocalFilename | app.py:37-39 | The local name is non-empty and holds no `/` and no `?`. |
| Download.LocalFilenameOfSegment | main.py:21-24 | A URL's last segment, cut at its first `?`, is the local name. |
| Download.LocalFilenameFallback | main.py:27-28 | A URL ending in `/` or in `/?query` gets `downloaded_audio.mp3`. |
| Download.SignedUrlExample | app.py:37-38 | `https://host/path/file.mp3?token=abc` is saved as `file.mp3`. |
| Download.DownloadFile | main.py:18-40 | The command-line download returns the local name when the transfer succeeds and nothing when it fails. |
| Download.AppDownloadFileAsWritten | app.py:36-50 | The web app's download, as written, returns nothing on either path. |
| Cli.ChosenSource | main.py:51-66 | The source is the argument if non-empty, else `AUDIO_SOURCE` if non-empty, else the typed answer stripped of quotes; none when that is empty. |
| Cli.NoSourceExactly | main.py:61-66 | A run ends without a source exactly when all three inputs come out empty. |
| Cli.AudioPath | main.py:68-75 | An `http://` or `https://` source is downloaded and the saved name used; any other source is the path unchanged. |
| Cli.SourceRouting | main.py:68-75 | A failed download ends the run; a successful one continues with the local file name. |
| Cli.DownloadedFileFound | main.py:68-79 | When a successful download has written its file, a URL run never stops for a missing file, and it ends with a failed download exactly when the download fails. |
| Cli.Preview | main.py:87 | The preview is the first 200 characters plus `...` when longer, the whole transcript otherwise. |
| Cli.Basename | main.py:98 | The base name holds no `/` and ends the path. |
| Cli.BasenameOf | main.py:98 | The base name of `dir/name` is `name`. |
| Cli.Stem | main.py:99 | `splitext(name)[0]` is a prefix of the name. |
| Cli.StemDropsExtension | main.py:99 | `splitext` drops the last dot and what follows it. |
| Cli.StemOfHidden | main.py:99 | A leading dot alone does not start an extension. |
| Cli.OutputFilename | main.py:98-99 | The output name ends in `_minutes.md` and holds no `/`. |
| Cli.OutputFilenameDropsExtension | main.py:98-99 | `dir/stem.ext` and `stem.ext` are saved as `stem_minutes.md`. |
| Cli.OutputFilenameWithoutExtension | main.py:98-99 | A name without a dot is kept whole before `_minutes.md`. |
| Cli.OutputFilenameOfHiddenFile | main.py:98-99 | `dir/.name` is saved as `.name_minutes.md`. |
| Cli.RunMain | main.py:42-108 | The procedure with its early returns ends exactly as `RunOutcome` says. |
| Cli.RunOutcome | main.py:42-108 | A run stops for want of a source exactly when none is chosen; a saved run writes the generated minutes under a `/`-free name ending in `_minutes.md`. |
| Cli.SavedExactly | main.py:77-108 | Minutes are saved exactly when the path exists, transcription succeeds and generation succeeds; the file is named after the audio path. |
| Cli.GenerationNeedsTranscript | main.py:77-95 | Generation is reached only after the file was found and transcribed. |
| Text.StripBy | app.py:70 | `strip` leaves no dropped character at either end and adds no character. |
| Text.StripByPadded | app.py:95-97 | `strip` removes exactly the padding around already trimmed text. |
| Text.StripByIdempotent | app.py:70 | `strip` is idempotent. |
| Text.ContainsIff | app.py:100 | `sub in s` holds exactly when `sub` starts at some position of `s`. |
| Text.AfterLast | app.py:37 | `split(c)[-1]` is a `c`-free suffix, preceded by `c` when shorter than the text. |
| Text.AfterLastAppend | main.py:21 | `split(c)[-1]` of `head + c + tail` with a `c`-free tail is the tail. |
| Text.BeforeFirst | app.py:38 | `split(c)[0]` is a `c`-free prefix, followed by `c` when shorter than the text. |
| Text.BeforeFirstAppend | main.py:24 | `split(c)[0]` of a text with a `c`-free head before a `c` is that head. |

## Left out

- The Streamlit page, its layout and CSS, the dashboard and the PDF export (app.py:28-31 and
  130-293) are user interface. So is the dashboard's fallback record when no parsed data is
  stored (app.py:218-222).
- The transcriber (Whisper) and the generator (Groq) are external calls. A run takes their
  results as parameters: a transcript, or none when transcription raises, and minutes, or
  none when generation or the file write raises.
- The HTTP transfer in 8192-byte chunks and the file writes are not modelled. A download is a
  boolean `fetched` saying whether the transfer succeeded.
- The clock: the placeholder title takes the formatted timestamp as a parameter.
- `input()` is a parameter `typed`, and the file system is a set of existing paths.
- The parser's own title search (app.py:61-65) is not modelled: its result is never used.
- Cli.Basename: models `os.path.basename` on POSIX (`posixpath`). On Windows `os.path` is
  `ntpath`, which also splits at `\` and after a drive colon; the model does not cover that.
- Cli.Stem: models `os.path.splitext` on POSIX. main.py applies it to the base name, so on
  Windows it differs only through what `Cli.Basename` leaves in (a `\` or a drive colon).
- The regex flag IGNORECASE and the class `\d` are modelled on ASCII letters and digits only.
  Python applies Unicode case folding and Unicode digits.
- The numbered-section body capture is proved for documents whose headings and bodies hold no
  `#`, after a preamble that holds no `###` and does not end in `#` (a `# Title` line or a
  metadata table qualifies). Other documents are still parsed by the model; only the
  round-trip lemmas assume this.
- Cli.RunOutcome: is defined on every `World`, including one that says a download succeeded
  while its file is missing, a state main.py cannot reach (main.py:33-37 writes the file
  before returning its name). It reports `FileNotFound` there. `Cli.DownloadKept` names the
  reachable worlds, and `Cli.DownloadedFileFound` shows that no URL run ends that way in them.
- Title.TitleFromMetadata: proved for minutes in which no `*` comes before the title row (a
  bold word earlier in the text is not covered). The title-row search itself handles any text.
- The table round-trip lemmas assume cells without a bar or a newline and without surrounding
  whitespace. The scanner itself handles any text.
- The web app's error paths (`st.error`, the `except` around the analysis) are not modelled:
  `Session.SessionState.Analyze` models the successful analysis only.

## Findings

| source | as written | input that shows it | evidently intended | confidence | as-written member | corrected member |
|---|---|---|---|---|---|---|
| app.py:36-50 | `download_file` writes the file but has no `return` on the success path, so it returns `None`; the caller at app.py:155-157 then never gets an audio path from a URL | any URL whose download succeeds, e.g. `https://host/path/file.mp3` | return the local file name on success, as main.py:36-37 does | high (not executed) | Download.AppDownloadFileAsWritten, Download.AppDownloadLosesFile | Download.DownloadFile |
