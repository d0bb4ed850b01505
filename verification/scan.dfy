/** The regular expressions of the minutes parser (app.py), written as explicit scanners.

    `MatchPrefix(t, re)` is what Python's regex engine returns when it tries `re` at the
    first character of `t` (group 1, or nothing); since none of the patterns looks behind
    or anchors to a line start, a match at position `p` of `s` depends only on `s[p..]`.
    `FindCapture` is `re.search(...).group(1)` (the leftmost position that matches), and
    `Bullets` and `Rows` are the two `re.findall` calls. */
module Scan {
  import opened Text
  import opened Wrappers

  /** Where a section capture ends (the lookahead after the lazy body group), besides the
      end of the text. */
  datatype Stop =
    | NextH3            // a newline followed by `###`
    | NextLooseHeading  // a newline followed by `##`, by digits and a dot, or by `*`

  /** The section-marker alternatives of the fallback summary pattern. */
  predicate LooseMarker(t: string) {
    || StartsWith(t, "##")
    || (t != [] && t[0] == '*')
    || (t != [] && IsDigit(t[0]) && var u := TrimStart(t, IsDigit); u != [] && u[0] == '.')
  }

  predicate StopsAt(t: string, stop: Stop) {
    match stop
    case NextH3 => StartsWith(t, "\n###")
    case NextLooseHeading => t != [] && t[0] == '\n' && LooseMarker(t[1..])
  }

  /** The lazy DOTALL capture `(.*?)` followed by the stop lookahead: the longest prefix
      of `t` in which no stop begins. */
  function UpTo(t: string, stop: Stop): (r: string)
    ensures |r| <= |t| && r == t[..|r|]
    ensures forall j :: 0 <= j < |r| ==> !StopsAt(t[j..], stop)
    ensures |r| < |t| ==> StopsAt(t[|r|..], stop)
    decreases |t|
  {
    if t == [] then []
    else if StopsAt(t, stop) then assert t[0..] == t; []
    else
      var rest := UpTo(t[1..], stop);
      TailSuffixes(t);
      ConsPrefix(t, |rest|);
      [t[0]] + rest
  }

  lemma UpToStep(t: string, stop: Stop)
    requires t != [] && !StopsAt(t, stop)
    ensures UpTo(t, stop) == [t[0]] + UpTo(t[1..], stop)
  {
  }

  /** After a section's heading words: the lazy `.*?\n` skips to the first newline, and
      the capture runs from there to the first stop or the end. No newline, no match. */
  function SectionBody(t: string, stop: Stop): (r: Option<string>)
    ensures r.Some? <==> '\n' in t
  {
    var line := LineOf(t);
    if |line| < |t| then Some(UpTo(t[|line| + 1..], stop)) else None
  }

  /** The section marker of the fallback summary pattern at the start of `t` (`##`, digits
      and a dot, or a run of stars), and what follows it. */
  function LooseMarkerEnd(t: string): (r: Option<string>)
    ensures r.Some? ==> |r.value| < |t| && r.value == t[|t| - |r.value|..]
  {
    if StartsWith(t, "##") then Some(t[2..])
    else if t != [] && IsDigit(t[0]) then
      var u := TrimStart(t, IsDigit);
      if u != [] && u[0] == '.' then Some(u[1..]) else None
    else if t != [] && t[0] == '*' then
      var u := TrimStart(t, IsStar);
      assert u != t;
      Some(u)
    else None
  }

  /** The words of the metadata-table row that carries the meeting title. */
  const TitleLabel: string := "**1. Meeting Title**"

  /** The patterns searched for in a minutes document. */
  datatype Regex =
    | NumberedSection(number: char, words: string)
      // `###`, a number, a dot and `words` (case-insensitive); body up to the next `\n###`
    | LooseSummary
      // a loose section marker and "Meeting Summary"; body up to the next loose marker line
    | MetadataTitle
      // a table row whose first cell is `TitleLabel`; the second cell
    | Heading
      // `# ` anywhere; the rest of that line

  /** The `k` cells `\s*(.*?)\s*\|` that follow a bar, as Python's backtracking finds them
      first: the cells, and the text after the last bar. */
  function MatchCells(s: string, k: nat): (r: Option<(seq<string>, string)>)
    requires 1 <= k
    ensures r.Some? ==> |r.value.0| == k && |r.value.1| < |s|
    ensures r.Some? ==> forall i :: 0 <= i < k ==> '\n' !in r.value.0[i]
    decreases k, |s| + 3
  {
    // Leading whitespace is taken greedily: a shorter run never reaches a bar that the
    // longest run cannot, and the engine tries the longest run first.
    TryGroup(TrimStart(s, IsSpace), 0, k)
  }

  /** The lazy group `(.*?)` over `w`, trying the group lengths `n`, `n + 1`, ... in turn
      (never across a newline). */
  function TryGroup(w: string, n: nat, k: nat): (r: Option<(seq<string>, string)>)
    requires 1 <= k && n <= |w| && '\n' !in w[..n]
    ensures r.Some? ==> |r.value.0| == k && |r.value.1| < |w| - n
    ensures r.Some? ==> forall i :: 0 <= i < k ==> '\n' !in r.value.0[i]
    decreases k, |w| - n + 2
  {
    var here := GroupEndsAt(w, n, k);
    if here.Some? then here
    else if n < |w| && w[n] != '\n' then
      assert w[..n + 1] == w[..n] + [w[n]];
      TryGroup(w, n + 1, k)
    else None
  }

  /** The group taken as `w[..n]`: it succeeds when only whitespace separates it from a bar
      and the remaining `k - 1` cells match after that bar. */
  function GroupEndsAt(w: string, n: nat, k: nat): (r: Option<(seq<string>, string)>)
    requires 1 <= k && n <= |w| && '\n' !in w[..n]
    ensures r.Some? ==> |r.value.0| == k && |r.value.1| < |w| - n
    ensures r.Some? ==> forall i :: 0 <= i < k ==> '\n' !in r.value.0[i]
    decreases k, 1
  {
    CellsAfterBar(w[..n], TrimStart(w[n..], IsSpace), k)
  }

  /** The cell `cell` closed by the bar that starts `after`, followed by `k - 1` more cells. */
  function CellsAfterBar(cell: string, after: string, k: nat): (r: Option<(seq<string>, string)>)
    requires 1 <= k && '\n' !in cell
    ensures r.Some? ==> |r.value.0| == k && |r.value.1| < |after|
    ensures r.Some? ==> forall i :: 0 <= i < k ==> '\n' !in r.value.0[i]
    decreases k, 0
  {
    if after == [] || after[0] != '|' then None
    else if k == 1 then Some(([cell], after[1..]))
    else
      match MatchCells(after[1..], k - 1)
      case Some((more, rest)) => Some(([cell] + more, rest))
      case None => None
  }

  /** `###\s*N\.\s*words.*?\n(.*?)(?=\n###|\Z)` at the start of `t`. */
  function MatchSection(t: string, number: char, words: string): (r: Option<string>)
    ensures r.Some? ==> StartsWith(t, "###")
  {
    if StartsWith(t, "###") then
      var u := TrimStart(t[3..], IsSpace);
      if |u| >= 2 && u[0] == number && u[1] == '.' then
        var v := TrimStart(u[2..], IsSpace);
        if StartsWithCI(v, words) then SectionBody(v[|words|..], NextH3) else None
      else None
    else None
  }

  /** `(?:##|\d+\.|[*]+)\s*Meeting Summary.*?\n(.*?)(?=\n(?:##|\d+\.|[*]+)|\Z)` at the
      start of `t`. */
  function MatchLooseSummary(t: string): (r: Option<string>)
    ensures r.Some? ==> LooseMarker(t)
  {
    match LooseMarkerEnd(t)
    case Some(u) =>
      var v := TrimStart(u, IsSpace);
      if StartsWithCI(v, "Meeting Summary") then SectionBody(v[15..], NextLooseHeading) else None
    case None => None
  }

  /** `\|\s*\*\*1\. Meeting Title\*\*\s*\|\s*(.*?)\s*\|` at the start of `t`. */
  function MatchTitleRow(t: string): (r: Option<string>)
    ensures r.Some? ==> t != [] && t[0] == '|' && '\n' !in r.value
  {
    if t != [] && t[0] == '|' then TitleAfterBar(TrimStart(t[1..], IsSpace)) else None
  }

  /** The rest of the title pattern after the opening bar and its spaces. */
  function TitleAfterBar(u: string): (r: Option<string>)
    ensures r.Some? ==> '\n' !in r.value
  {
    if StartsWith(u, TitleLabel) then TitleAfterLabel(TrimStart(u[|TitleLabel|..], IsSpace))
    else None
  }

  /** The rest of the title pattern after the label and its spaces: a bar, then one cell. */
  function TitleAfterLabel(v: string): (r: Option<string>)
    ensures r.Some? ==> '\n' !in r.value
  {
    if v != [] && v[0] == '|' then
      (match MatchCells(v[1..], 1)
       case Some((cells, _)) => Some(cells[0])
       case None => None)
    else None
  }

  /** `# (.*)` at the start of `t`. */
  function MatchHeading(t: string): (r: Option<string>)
    ensures r.Some? <==> StartsWith(t, "# ")
    ensures r.Some? ==> '\n' !in r.value && |r.value| <= |t| - 2
  {
    if StartsWith(t, "# ") then Some(LineOf(t[2..])) else None
  }

  /** Group 1 of pattern `re` tried at the first character of `t`. */
  function MatchPrefix(t: string, re: Regex): Option<string> {
    match re
    case NumberedSection(number, words) => MatchSection(t, number, words)
    case LooseSummary => MatchLooseSummary(t)
    case MetadataTitle => MatchTitleRow(t)
    case Heading => MatchHeading(t)
  }

  /** `re.search` with the anchored matcher `m`, from position `i` on: what `m` captures at
      the first position where it matches. */
  function Search(s: string, i: nat, m: string -> Option<string>): (r: Option<string>)
    requires i <= |s|
    decreases |s| - i
  {
    var here := m(s[i..]);
    if here.Some? || i == |s| then here else Search(s, i + 1, m)
  }

  /** The anchored matcher of pattern `re`. */
  function Matcher(re: Regex): string -> Option<string> {
    match re
    case NumberedSection(number, words) => (t: string) => MatchSection(t, number, words)
    case LooseSummary => MatchLooseSummary
    case MetadataTitle => MatchTitleRow
    case Heading => MatchHeading
  }

  /** Applying the matcher of `re` is matching `re` at the start. */
  lemma MatcherApplies(t: string, re: Regex)
    ensures Matcher(re)(t) == MatchPrefix(t, re)
  {
    match re
    case NumberedSection(number, words) =>
    case LooseSummary =>
    case MetadataTitle =>
    case Heading =>
  }

  /** The matcher of the metadata-title pattern is the title-row reader. */
  lemma TitleMatcher()
    ensures Matcher(MetadataTitle) == MatchTitleRow
  {
  }

  /** `re.search(pattern, s)` and its group 1. */
  function FindCapture(s: string, re: Regex): (r: Option<string>)
  {
    Search(s, 0, Matcher(re))
  }

  /** The search finds something exactly when `m` matches at some position, and then it is
      the capture at the leftmost such position. */
  lemma {:induction false} SearchLeftmost(s: string, i: nat, m: string -> Option<string>)
    requires i <= |s|
    ensures Search(s, i, m).None? <==> forall q :: i <= q <= |s| ==> m(s[q..]).None?
    ensures Search(s, i, m).Some? ==>
      exists p :: i <= p <= |s| && Search(s, i, m) == m(s[p..])
        && forall q :: i <= q < p ==> m(s[q..]).None?
    decreases |s| - i
  {
    if m(s[i..]).None? && i < |s| {
      SearchLeftmost(s, i + 1, m);
    }
  }

  /** The search stops at the first position where `m` matches. */
  lemma SearchHere(s: string, i: nat, m: string -> Option<string>)
    requires i <= |s| && m(s[i..]).Some?
    ensures Search(s, i, m) == m(s[i..])
  {
  }

  /** The search passes over positions where `m` does not match. */
  lemma {:induction false} SearchPasses(s: string, i: nat, j: nat, m: string -> Option<string>)
    requires i <= j <= |s|
    requires forall q :: i <= q < j ==> m(s[q..]).None?
    ensures Search(s, i, m) == Search(s, j, m)
    decreases j - i
  {
    if i < j {
      SearchPasses(s, i + 1, j, m);
    }
  }

  /** What precedes the search position does not matter: the search looks at suffixes. */
  lemma {:induction false} SearchShift(x: string, y: string, i: nat, m: string -> Option<string>)
    requires i <= |y|
    ensures Search(x + y, |x| + i, m) == Search(y, i, m)
    decreases |y| - i
  {
    assert (x + y)[|x| + i..] == y[i..];
    if m(y[i..]).None? && i < |y| {
      SearchShift(x, y, i + 1, m);
    }
  }

  /** `re.search` reports the capture at the leftmost position where the pattern matches,
      and nothing when it matches nowhere. */
  lemma FindCaptureLeftmost(s: string, re: Regex)
    ensures FindCapture(s, re).None? <==> forall q :: 0 <= q <= |s| ==> MatchPrefix(s[q..], re).None?
    ensures FindCapture(s, re).Some? ==>
      exists p :: 0 <= p <= |s| && FindCapture(s, re) == MatchPrefix(s[p..], re)
        && forall q :: 0 <= q < p ==> MatchPrefix(s[q..], re).None?
  {
    forall t ensures Matcher(re)(t) == MatchPrefix(t, re) {
      MatcherApplies(t, re);
    }
    SearchLeftmost(s, 0, Matcher(re));
  }

  /** `re.findall` of the bullet pattern: a `-` or `*`, at least one whitespace character
      (possibly newlines), and the rest of the line. Not anchored to line starts. */
  function Bullets(s: string): (r: seq<string>)
    ensures forall i :: 0 <= i < |r| ==> '\n' !in r[i]
    ensures forall i :: 0 <= i < |r| ==> r[i] == [] || !IsSpace(r[i][0])
    decreases |s|
  {
    if |s| < 2 then []
    else if (s[0] == '-' || s[0] == '*') && IsSpace(s[1]) then
      var w := TrimStart(s[1..], IsSpace);
      var line := LineOf(w);
      [line] + Bullets(w[|line|..])
    else Bullets(s[1..])
  }

  /** The three groups of one match of the table-row pattern, before stripping. */
  datatype RawRow = RawRow(first: string, second: string, third: string)

  /** `re.findall` of the three-cell row pattern: bar, cell, bar, cell, bar, cell, bar.
      Cells never span lines, but the whitespace around them may. */
  function Rows(s: string): (r: seq<RawRow>)
    ensures forall i :: 0 <= i < |r| ==>
      '\n' !in r[i].first && '\n' !in r[i].second && '\n' !in r[i].third
    decreases |s|
  {
    if s == [] then []
    else if s[0] == '|' then
      match MatchCells(s[1..], 3)
      case Some((cells, rest)) => [RawRow(cells[0], cells[1], cells[2])] + Rows(rest)
      case None => Rows(s[1..])
    else Rows(s[1..])
  }
}
