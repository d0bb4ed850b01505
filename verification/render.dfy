/** Minutes documents laid out as the parser's patterns read them (numbered
    `###` sections, bullet lists, pipe tables), and what the scanners of `Scan` find in
    them. These are the round trips the parser relies on. */
module Render {
  import opened Text
  import opened Wrappers
  import opened Scan

  // ---- Pipe tables ----

  /** A table cell as written: one line, no bar, no whitespace at either end. */
  predicate IsCell(c: string) {
    '|' !in c && '\n' !in c && IsTrimmed(c, IsSpace)
  }

  /** The cells of a row after its opening bar: ` c |` for each cell. */
  function CellsText(cells: seq<string>): string {
    if cells == [] then [] else " " + cells[0] + " |" + CellsText(cells[1..])
  }

  function Cells(row: RawRow): seq<string> {
    [row.first, row.second, row.third]
  }

  predicate IsCellRow(row: RawRow) {
    IsCell(row.first) && IsCell(row.second) && IsCell(row.third)
  }

  /** `| first | second | third |` */
  function RowLine(row: RawRow): string {
    "|" + CellsText(Cells(row))
  }

  /** One row per line, each line ended by a newline. */
  function TableText(rows: seq<RawRow>): string {
    if rows == [] then [] else RowLine(rows[0]) + "\n" + TableText(rows[1..])
  }

  /** The lazy group stops at the first length that succeeds. */
  lemma TryGroupHere(w: string, n: nat, k: nat)
    requires 1 <= k && n <= |w| && '\n' !in w[..n] && GroupEndsAt(w, n, k).Some?
    ensures TryGroup(w, n, k) == GroupEndsAt(w, n, k)
  {
  }

  /** Otherwise it grows by one character, unless that character is a newline. */
  lemma TryGroupNext(w: string, n: nat, k: nat)
    requires 1 <= k && n < |w| && '\n' !in w[..n] && GroupEndsAt(w, n, k).None? && w[n] != '\n'
    ensures '\n' !in w[..n + 1]
    ensures TryGroup(w, n, k) == TryGroup(w, n + 1, k)
  {
    assert w[..n + 1] == w[..n] + [w[n]];
  }

  /** A group followed by whitespace and a bar ends there when the other cells match. */
  lemma GroupAtBar(w: string, n: nat, k: nat, pad: string, more: string)
    requires 1 <= k && n <= |w| && '\n' !in w[..n]
    requires forall i :: 0 <= i < |pad| ==> IsSpace(pad[i])
    requires w[n..] == pad + "|" + more
    ensures GroupEndsAt(w, n, k) == if k == 1 then Some(([w[..n]], more))
                                    else (match MatchCells(more, k - 1)
                                          case Some((cells, rest)) => Some(([w[..n]] + cells, rest))
                                          case None => None)
  {
    assert pad + "|" + more == pad + ("|" + more);
    TrimStartPadded(pad, "|" + more, IsSpace);
    assert ("|" + more)[1..] == more;
  }

  /** A group not followed by whitespace and a bar fails. */
  lemma GroupWithoutBar(w: string, n: nat, k: nat)
    requires 1 <= k && n <= |w| && '\n' !in w[..n]
    requires var t := TrimStart(w[n..], IsSpace); t == [] || t[0] != '|'
    ensures GroupEndsAt(w, n, k).None?
  {
  }

  /** The lazy group cannot stop inside a cell: no bar follows before the cell's end. */
  lemma GroupSkipsCell(c: string, y: string, n: nat, k: nat)
    requires IsCell(c) && n < |c| && 1 <= k
    ensures (c + y)[..n] == c[..n]
    ensures GroupEndsAt(c + y, n, k).None?
  {
    var w := c + y;
    assert w[..n] == c[..n];
    var cn := c[n..];
    assert w[n..] == cn + y;
    assert cn[|cn| - 1] == c[|c| - 1];
    var t := TrimStart(cn, IsSpace);
    assert t != [];
    TrimStartAppend(cn, y, IsSpace);
    assert t[0] == cn[|cn| - |t|];
    GroupWithoutBar(w, n, k);
  }

  lemma {:induction false} TryGroupSkipsCell(c: string, y: string, n: nat, k: nat)
    requires IsCell(c) && n <= |c| && 1 <= k
    ensures (c + y)[..n] == c[..n] && (c + y)[..|c|] == c
    ensures TryGroup(c + y, n, k) == TryGroup(c + y, |c|, k)
    decreases |c| - n
  {
    assert (c + y)[..|c|] == c;
    if n < |c| {
      GroupSkipsCell(c, y, n, k);
      assert (c + y)[n] == c[n];
      TryGroupNext(c + y, n, k);
      TryGroupSkipsCell(c, y, n + 1, k);
    }
  }

  /** The leading whitespace of a rendered cell list. */
  lemma CellsTextStart(c: string, more: string)
    requires IsCell(c)
    ensures TrimStart(" " + c + " |" + more, IsSpace)
            == c + (if c == [] then "" else " ") + "|" + more
  {
    if c == [] {
      assert " " + c + " |" + more == "  " + ("|" + more);
      TrimStartPadded("  ", "|" + more, IsSpace);
    } else {
      assert " " + c + " |" + more == " " + (c + " |" + more);
      TrimStartPadded(" ", c + " |" + more, IsSpace);
    }
  }

  /** What follows a cell's text up to and after its closing bar. */
  function AfterCell(c: string, more: string): string {
    (if c == [] then "" else " ") + "|" + more
  }

  /** The leading blank before a cell is passed over. */
  lemma FirstCellStart(c: string, more: string, k: nat)
    requires IsCell(c) && 1 <= k
    ensures MatchCells(" " + c + " |" + more, k) == TryGroup(c + AfterCell(c, more), 0, k)
  {
    var pad := if c == [] then "" else " ";
    CellsTextStart(c, more);
    Assoc4(c, pad, "|", more);
    ConcatAssoc(pad, "|", more);
  }

  /** The group ends at the cell's end, where the closing bar follows. */
  lemma FirstCellEnd(c: string, more: string, k: nat)
    requires IsCell(c) && 1 <= k
    requires k == 1 || MatchCells(more, k - 1).Some?
    ensures (c + AfterCell(c, more))[..|c|] == c
    ensures TryGroup(c + AfterCell(c, more), |c|, k)
            == if k == 1 then Some(([c], more))
               else Some(([c] + MatchCells(more, k - 1).value.0, MatchCells(more, k - 1).value.1))
  {
    var pad := if c == [] then "" else " ";
    var w := c + AfterCell(c, more);
    AppendSlices(c, AfterCell(c, more));
    assert forall i :: 0 <= i < |pad| ==> IsSpace(pad[i]) by {
      if pad != [] {
        assert pad == [' '];
      }
    }
    GroupAtBar(w, |c|, k, pad, more);
    TryGroupHere(w, |c|, k);
  }

  /** A rendered cell ` c |` is the first of the `k` cells when the other cells match
      after it. */
  lemma FirstCell(c: string, more: string, k: nat)
    requires IsCell(c) && 1 <= k
    requires k == 1 || MatchCells(more, k - 1).Some?
    ensures MatchCells(" " + c + " |" + more, k)
            == if k == 1 then Some(([c], more))
               else Some(([c] + MatchCells(more, k - 1).value.0, MatchCells(more, k - 1).value.1))
  {
    FirstCellStart(c, more, k);
    TryGroupSkipsCell(c, AfterCell(c, more), 0, k);
    FirstCellEnd(c, more, k);
  }

  /** The `k` rendered cells are matched exactly, whatever follows the last bar. */
  lemma {:induction false} MatchCellsRendered(cells: seq<string>, tail: string)
    requires 1 <= |cells|
    requires forall i :: 0 <= i < |cells| ==> IsCell(cells[i])
    ensures MatchCells(CellsText(cells) + tail, |cells|) == Some((cells, tail))
    decreases |cells|
  {
    var c := cells[0];
    var more := CellsText(cells[1..]) + tail;
    ConcatAssoc(" " + c + " |", CellsText(cells[1..]), tail);
    HeadTail(cells);
    if |cells| == 1 {
      assert cells[1..] == [];
      assert more == tail by { AppendEmpty(tail); }
      assert cells == [c] by { AppendEmpty([c]); }
      FirstCell(c, more, 1);
    } else {
      MatchCellsRendered(cells[1..], tail);
      FirstCell(c, more, |cells|);
    }
  }

  /** The three cells of a rendered row are matched exactly. */
  lemma RowCellsRendered(row: RawRow, tail: string)
    requires IsCellRow(row)
    ensures MatchCells(CellsText(Cells(row)) + tail, 3) == Some((Cells(row), tail))
  {
    var cells := Cells(row);
    assert |cells| == 3 && cells[0] == row.first && cells[1] == row.second && cells[2] == row.third;
    MatchCellsRendered(cells, tail);
  }

  /** `findall` passes over a character that is not a bar. */
  lemma RowsSkipChar(t: string)
    requires t != [] && t[0] != '|'
    ensures Rows(t) == Rows(t[1..])
  {
  }

  /** `findall` at a bar where three cells match takes that row and resumes after it. */
  lemma RowsAtBar(t: string, cells: seq<string>, rest: string)
    requires t != [] && t[0] == '|' && MatchCells(t[1..], 3) == Some((cells, rest))
    ensures Rows(t) == [RawRow(cells[0], cells[1], cells[2])] + Rows(rest)
  {
  }

  /** `findall` takes a rendered row line and resumes on the next line. */
  lemma RowLineStep(r: RawRow, z: string)
    requires IsCellRow(r)
    ensures Rows(RowLine(r) + "\n" + z) == [r] + Rows(z)
  {
    var s := RowLine(r) + "\n" + z;
    var nz := "\n" + z;
    assert Rows(s) == [r] + Rows(nz) by {
      assert s == "|" + (CellsText(Cells(r)) + nz);
      assert s[1..] == CellsText(Cells(r)) + nz;
      RowCellsRendered(r, nz);
      RowsAtBar(s, Cells(r), nz);
    }
    assert Rows(nz) == Rows(z) by {
      RowsSkipChar(nz);
      assert nz[1..] == z;
    }
  }

  /** `findall` of the row pattern returns a rendered table's rows, in order. */
  lemma {:induction false} RowsOfTable(rows: seq<RawRow>, post: string)
    requires forall i :: 0 <= i < |rows| ==> IsCellRow(rows[i])
    ensures Rows(TableText(rows) + post) == rows + Rows(post)
    decreases |rows|
  {
    if rows == [] {
      assert TableText(rows) + post == post;
    } else {
      var r := rows[0];
      var z := TableText(rows[1..]) + post;
      assert Rows(TableText(rows) + post) == [r] + Rows(z) by {
        var line := RowLine(r) + "\n";
        assert TableText(rows) == line + TableText(rows[1..]);
        ConcatAssoc(line, TableText(rows[1..]), post);
        assert IsCellRow(r);
        RowLineStep(r, z);
      }
      assert Rows(z) == rows[1..] + Rows(post) by {
        RowsOfTable(rows[1..], post);
      }
      ConcatAssoc([r], rows[1..], Rows(post));
      HeadTail(rows);
    }
  }

  /** A table on its own reads back as its rows. */
  lemma RowsOfWholeTable(rows: seq<RawRow>)
    requires forall i :: 0 <= i < |rows| ==> IsCellRow(rows[i])
    ensures Rows(TableText(rows)) == rows
  {
    RowsOfTable(rows, []);
    assert TableText(rows) + [] == TableText(rows);
    assert rows + [] == rows;
  }

  /** A table whose first row is `row` reads back as that row and the rest. */
  lemma RowsOfTableCons(row: RawRow, rows: seq<RawRow>)
    requires IsCellRow(row)
    requires Rows(TableText(rows)) == rows
    ensures Rows(TableText([row] + rows)) == [row] + rows
  {
    var all := [row] + rows;
    assert all[0] == row && all[1..] == rows;
    assert TableText(all) == RowLine(row) + "\n" + TableText(rows);
    RowLineStep(row, TableText(rows));
  }

  /** A table with a header row and a separator row reads back as all its rows. */
  lemma HeadedTable(header: RawRow, separator: RawRow, rows: seq<RawRow>)
    requires IsCellRow(header) && IsCellRow(separator)
    requires forall i :: 0 <= i < |rows| ==> IsCellRow(rows[i])
    ensures Rows(TableText([header, separator] + rows)) == [header, separator] + rows
  {
    RowsOfWholeTable(rows);
    RowsOfTableCons(separator, rows);
    RowsOfTableCons(header, [separator] + rows);
    ConsTwo(header, separator, rows);
  }

  /** The cells of a row written without blanks around them: `c|` for each cell. */
  function CompactCellsText(cells: seq<string>): string {
    if cells == [] then [] else cells[0] + "|" + CompactCellsText(cells[1..])
  }

  /** `|first|second|third|`, as in the separator line `|---|---|---|`. */
  function CompactRowLine(row: RawRow): string {
    "|" + CompactCellsText(Cells(row))
  }

  /** A cell written without blanks starts the text: nothing is trimmed in front of it. */
  lemma CompactCellStart(c: string, more: string, k: nat)
    requires IsCell(c) && 1 <= k
    ensures MatchCells(c + "|" + more, k) == TryGroup(c + ("|" + more), 0, k)
  {
    var w := c + ("|" + more);
    assert c + "|" + more == w;
    assert w[0] == if c == [] then '|' else c[0];
    TrimStartPadded([], w, IsSpace);
    assert [] + w == w;
  }

  /** The group ends at the cell's end, where its bar follows at once. */
  lemma CompactCellEnd(c: string, more: string, k: nat)
    requires IsCell(c) && 1 <= k
    requires k == 1 || MatchCells(more, k - 1).Some?
    ensures (c + ("|" + more))[..|c|] == c
    ensures TryGroup(c + ("|" + more), |c|, k)
            == if k == 1 then Some(([c], more))
               else Some(([c] + MatchCells(more, k - 1).value.0, MatchCells(more, k - 1).value.1))
  {
    var w := c + ("|" + more);
    AppendSlices(c, "|" + more);
    assert w[|c|..] == [] + "|" + more;
    GroupAtBar(w, |c|, k, [], more);
    TryGroupHere(w, |c|, k);
  }

  /** A cell written without blanks is the first of the `k` cells when the other cells
      match after its bar. */
  lemma CompactFirstCell(c: string, more: string, k: nat)
    requires IsCell(c) && 1 <= k
    requires k == 1 || MatchCells(more, k - 1).Some?
    ensures MatchCells(c + "|" + more, k)
            == if k == 1 then Some(([c], more))
               else Some(([c] + MatchCells(more, k - 1).value.0, MatchCells(more, k - 1).value.1))
  {
    CompactCellStart(c, more, k);
    TryGroupSkipsCell(c, "|" + more, 0, k);
    CompactCellEnd(c, more, k);
  }

  /** The `k` cells written without blanks are matched exactly, whatever follows the last
      bar. */
  lemma {:induction false} MatchCellsCompact(cells: seq<string>, tail: string)
    requires 1 <= |cells|
    requires forall i :: 0 <= i < |cells| ==> IsCell(cells[i])
    ensures MatchCells(CompactCellsText(cells) + tail, |cells|) == Some((cells, tail))
    decreases |cells|
  {
    var c := cells[0];
    var more := CompactCellsText(cells[1..]) + tail;
    ConcatAssoc(c + "|", CompactCellsText(cells[1..]), tail);
    HeadTail(cells);
    if |cells| == 1 {
      assert cells[1..] == [];
      assert more == tail by { AppendEmpty(tail); }
      assert cells == [c] by { AppendEmpty([c]); }
      CompactFirstCell(c, more, 1);
    } else {
      MatchCellsCompact(cells[1..], tail);
      CompactFirstCell(c, more, |cells|);
    }
  }

  /** `findall` takes a row line written without blanks and resumes on the next line. */
  lemma CompactRowLineStep(r: RawRow, z: string)
    requires IsCellRow(r)
    ensures Rows(CompactRowLine(r) + "\n" + z) == [r] + Rows(z)
  {
    var s := CompactRowLine(r) + "\n" + z;
    var nz := "\n" + z;
    assert Rows(s) == [r] + Rows(nz) by {
      assert s == "|" + (CompactCellsText(Cells(r)) + nz);
      assert s[1..] == CompactCellsText(Cells(r)) + nz;
      assert |Cells(r)| == 3 && Cells(r)[0] == r.first && Cells(r)[1] == r.second && Cells(r)[2] == r.third;
      MatchCellsCompact(Cells(r), nz);
      RowsAtBar(s, Cells(r), nz);
    }
    assert Rows(nz) == Rows(z) by {
      RowsSkipChar(nz);
      assert nz[1..] == z;
    }
  }

  /** A table whose separator line is written without blanks (`|---|---|---|`) reads back
      as all its rows just the same. */
  lemma HeadedCompactTable(header: RawRow, separator: RawRow, rows: seq<RawRow>)
    requires IsCellRow(header) && IsCellRow(separator)
    requires forall i :: 0 <= i < |rows| ==> IsCellRow(rows[i])
    ensures Rows(RowLine(header) + "\n" + CompactRowLine(separator) + "\n" + TableText(rows))
            == [header, separator] + rows
  {
    var h := RowLine(header) + "\n";
    var sep := CompactRowLine(separator);
    var t := TableText(rows);
    var z := sep + "\n" + t;
    assert Rows(z) == [separator] + rows by {
      RowsOfWholeTable(rows);
      CompactRowLineStep(separator, t);
    }
    assert Rows(h + z) == [header] + Rows(z) by {
      RowLineStep(header, z);
    }
    assert h + sep + "\n" + t == h + z by {
      Assoc4(h, sep, "\n", t);
      ConcatAssoc(sep, "\n", t);
    }
    ConsTwo(header, separator, rows);
  }

  /** Text without a bar holds no row. */
  lemma {:induction false} RowsWithoutBar(s: string)
    requires '|' !in s
    ensures Rows(s) == []
    decreases |s|
  {
    if s != [] {
      RowsWithoutBar(s[1..]);
    }
  }

  /** Whitespace in front of the cells is passed over. */
  lemma MatchCellsSkipsSpace(c: char, x: string, k: nat)
    requires IsSpace(c) && 1 <= k
    ensures MatchCells([c] + x, k) == MatchCells(x, k)
  {
    assert ([c] + x)[1..] == x;
  }

  /** The whitespace before a cell may run over a line break: a bar at the end of one line
      and three cells on the next still make a row. */
  lemma RowAcrossLineBreak(row: RawRow)
    requires IsCellRow(row)
    ensures Rows("|\n" + CellsText(Cells(row))) == [row]
  {
    var x := CellsText(Cells(row));
    var t := "|\n" + x;
    assert MatchCells(t[1..], 3) == Some((Cells(row), [])) by {
      ConsTwo('|', '\n', x);
      DropHead('|', ['\n'] + x);
      MatchCellsSkipsSpace('\n', x, 3);
      AppendEmpty(x);
      RowCellsRendered(row, []);
    }
    RowsAtBar(t, Cells(row), []);
    assert Rows([]) == [];
    AppendEmpty([row]);
  }

  /** A character that is not part of the table syntax appears in a table only inside a cell. */
  lemma {:induction false} CharNotInTable(c: char, rows: seq<RawRow>)
    requires c != '|' && c != ' ' && c != '\n'
    requires forall i :: 0 <= i < |rows| ==>
      c !in rows[i].first && c !in rows[i].second && c !in rows[i].third
    ensures c !in TableText(rows)
    decreases |rows|
  {
    if rows != [] {
      var r := rows[0];
      assert c !in r.first && c !in r.second && c !in r.third;
      assert Cells(r)[1..][1..][1..] == [];
      assert c !in CellsText(Cells(r)[1..][1..]);
      assert c !in CellsText(Cells(r)[1..]);
      assert c !in CellsText(Cells(r));
      CharNotInTable(c, rows[1..]);
    }
  }

  // ---- Bullet lists ----

  /** A bullet item as written: one non-empty line that does not start with whitespace. */
  predicate IsItem(x: string) {
    x != [] && '\n' !in x && !IsSpace(x[0])
  }

  /** `- item` lines, each ended by a newline. */
  function BulletList(items: seq<string>): string {
    if items == [] then [] else "- " + items[0] + "\n" + BulletList(items[1..])
  }

  /** A character that is not part of the list syntax appears in a list only inside an item. */
  lemma {:induction false} CharNotInBulletList(c: char, items: seq<string>)
    requires c != '-' && c != ' ' && c != '\n'
    requires forall i :: 0 <= i < |items| ==> c !in items[i]
    ensures c !in BulletList(items)
    decreases |items|
  {
    if items != [] {
      assert c !in items[0];
      CharNotInBulletList(c, items[1..]);
    }
  }

  /** `findall` at a marker followed by whitespace takes the rest of that line. */
  lemma BulletsAtMarker(s: string)
    requires |s| >= 2 && (s[0] == '-' || s[0] == '*') && IsSpace(s[1])
    ensures Bullets(s) == [LineOf(TrimStart(s[1..], IsSpace))]
      + Bullets(TrimStart(s[1..], IsSpace)[|LineOf(TrimStart(s[1..], IsSpace))|..])
  {
  }

  /** `findall` passes over a character that does not start a bullet. */
  lemma BulletsSkipChar(t: string)
    requires t != [] && t[0] != '-' && t[0] != '*'
    ensures Bullets(t) == Bullets(t[1..])
  {
  }

  /** One bullet: a marker, whitespace (which may include line breaks), and an item that
      runs to the end of its line. */
  lemma BulletStep(marker: char, pad: string, x: string, post: string)
    requires (marker == '-' || marker == '*') && pad != []
    requires forall k :: 0 <= k < |pad| ==> IsSpace(pad[k])
    requires IsItem(x) && (post == [] || post[0] == '\n')
    ensures Bullets([marker] + pad + x + post) == [x] + Bullets(post)
  {
    var s := [marker] + pad + x + post;
    var w := x + post;
    assert s[1..] == pad + w && s[0] == marker && IsSpace(s[1]) by {
      Assoc4([marker], pad, x, post);
      DropHead(marker, pad + w);
      assert (pad + w)[0] == pad[0];
    }
    assert TrimStart(s[1..], IsSpace) == w by {
      TrimStartPadded(pad, w, IsSpace);
    }
    assert LineOf(w) == x by {
      LineOfAppend(x, post);
    }
    assert w[|x|..] == post;
    BulletsAtMarker(s);
  }

  /** A rendered item regrouped as marker, blank, item and the line break onwards. */
  lemma BulletItemText(x: string, rest: string, post: string)
    ensures "- " + x + "\n" + rest + post == ['-'] + " " + x + ("\n" + (rest + post))
  {
    assert "- " == ['-'] + " ";
    Assoc4(['-'] + " " + x, "\n", rest, post);
  }

  /** The first item of a rendered list is found, and the search goes on after its line. */
  lemma BulletsOfFirst(items: seq<string>, post: string)
    requires items != [] && IsItem(items[0])
    ensures Bullets(BulletList(items) + post) == [items[0]] + Bullets(BulletList(items[1..]) + post)
  {
    var x := items[0];
    var z := BulletList(items[1..]) + post;
    var nz := "\n" + z;
    assert Bullets(BulletList(items) + post) == [x] + Bullets(nz) by {
      assert BulletList(items) == "- " + x + "\n" + BulletList(items[1..]);
      BulletItemText(x, BulletList(items[1..]), post);
      BulletStep('-', " ", x, nz);
    }
    assert Bullets(nz) == Bullets(z) by {
      BulletsSkipChar(nz);
      assert nz[1..] == z;
    }
  }

  /** `findall` of the bullet pattern returns a rendered list's items, in order. */
  lemma {:induction false} BulletsOfList(items: seq<string>, post: string)
    requires forall i :: 0 <= i < |items| ==> IsItem(items[i])
    ensures Bullets(BulletList(items) + post) == items + Bullets(post)
    decreases |items|
  {
    if items == [] {
      AppendEmpty(post);
    } else {
      BulletsOfFirst(items, post);
      BulletsOfList(items[1..], post);
      HeadTail(items);
      ConcatAssoc([items[0]], items[1..], Bullets(post));
    }
  }

  /** Text without a dash or a star holds no bullet, and does not change what follows. */
  lemma {:induction false} BulletsSkipText(pre: string, s: string)
    requires '-' !in pre && '*' !in pre
    ensures Bullets(pre + s) == Bullets(s)
    decreases |pre|
  {
    if pre == [] {
      assert pre + s == s;
    } else {
      BulletsSkipChar(pre + s);
      assert (pre + s)[1..] == pre[1..] + s;
      BulletsSkipText(pre[1..], s);
    }
  }

  /** The bullet pattern is not anchored to line starts: `foo - bar` yields `bar`. */
  lemma BulletInsideLine(pre: string, x: string)
    requires '-' !in pre && '*' !in pre && IsItem(x)
    ensures Bullets(pre + " - " + x) == [x]
  {
    assert pre + " - " + x == (pre + " ") + (['-'] + " " + x + []);
    BulletsSkipText(pre + " ", ['-'] + " " + x + []);
    BulletStep('-', " ", x, []);
  }

  /** The whitespace after the marker may be a line break: a lone `-` takes the next line
      as its item. */
  lemma BulletAcrossLineBreak(x: string, post: string)
    requires IsItem(x) && (post == [] || post[0] == '\n')
    ensures Bullets("-\n" + x + post) == [x] + Bullets(post)
  {
    assert "-\n" + x + post == ['-'] + "\n" + x + post;
    BulletStep('-', "\n", x, post);
  }

  // ---- Numbered sections ----

  /** A `### N. heading` section and its body. */
  datatype Section = Section(number: char, heading: string, body: string)

  /** A heading is one line without `#` that starts with a non-blank character. */
  predicate IsHeadingLine(heading: string) {
    heading != [] && !IsSpace(heading[0]) && '\n' !in heading && '#' !in heading
  }

  /** Neither heading nor body holds a `#`, so the only section markers are the sections'
      own. */
  predicate WellFormed(sec: Section) {
    IsDigit(sec.number) && IsHeadingLine(sec.heading) && '#' !in sec.body
  }

  function SectionText(sec: Section): string {
    "### " + [sec.number] + ". " + sec.heading + "\n" + sec.body
  }

  /** Sections separated by newlines. */
  function Sections(secs: seq<Section>): string
    decreases |secs|
  {
    if secs == [] then []
    else if |secs| == 1 then SectionText(secs[0])
    else SectionText(secs[0]) + "\n" + Sections(secs[1..])
  }

  /** The body of the first section numbered `number` whose heading starts with `words`
      (ignoring case): the independent reading of a section search. */
  function FirstBody(secs: seq<Section>, number: char, words: string): (r: Option<string>)
    ensures r.Some? ==> exists i :: 0 <= i < |secs| && secs[i].body == r.value
    ensures r.None? ==> forall i :: 0 <= i < |secs| ==>
      secs[i].number != number || !StartsWithCI(secs[i].heading, words)
    decreases |secs|
  {
    if secs == [] then None
    else if secs[0].number == number && StartsWithCI(secs[0].heading, words) then
      Some(secs[0].body)
    else
      var r := FirstBody(secs[1..], number, words);
      assert forall i :: 1 <= i < |secs| ==> secs[i] == secs[1..][i - 1];
      r
  }

  /** A section with another number is passed over. */
  lemma FirstBodySkip(secs: seq<Section>, number: char, words: string)
    requires secs != [] && secs[0].number != number
    ensures FirstBody(secs, number, words) == FirstBody(secs[1..], number, words)
  {
  }

  /** A first section with the number and words is the one found. */
  lemma FirstBodyHere(secs: seq<Section>, number: char, words: string)
    requires secs != [] && secs[0].number == number && StartsWithCI(secs[0].heading, words)
    ensures FirstBody(secs, number, words) == Some(secs[0].body)
  {
  }

  /** In three sections numbered 4, 5 and 7, each search finds its own section. */
  lemma FirstBodiesOfThree(secs: seq<Section>, w4: string, w5: string, w7: string)
    requires |secs| == 3 && secs[0].number == '4' && secs[1].number == '5' && secs[2].number == '7'
    requires StartsWithCI(secs[0].heading, w4) && StartsWithCI(secs[1].heading, w5)
    requires StartsWithCI(secs[2].heading, w7)
    ensures FirstBody(secs, '4', w4) == Some(secs[0].body)
    ensures FirstBody(secs, '5', w5) == Some(secs[1].body)
    ensures FirstBody(secs, '7', w7) == Some(secs[2].body)
  {
    var rest := secs[1..];
    assert rest[0] == secs[1] && rest[1..][0] == secs[2];
    FirstBodyHere(secs, '4', w4);
    FirstBodySkip(secs, '5', w5);
    FirstBodyHere(rest, '5', w5);
    FirstBodySkip(secs, '7', w7);
    FirstBodySkip(rest, '7', w7);
    FirstBodyHere(rest[1..], '7', w7);
  }

  /** A newline-free word list matches a heading line exactly when it matches the heading. */
  lemma HeadingWords(heading: string, rest: string, words: string)
    requires '\n' !in heading && '\n' !in words
    ensures StartsWithCI(heading + "\n" + rest, words) == StartsWithCI(heading, words)
  {
    var t := heading + "\n" + rest;
    if |words| > |heading| {
      assert t[|heading|] == '\n' != words[|heading|];
      assert Lower(t[|heading|]) != Lower(words[|heading|]);
    }
    if StartsWithCI(heading, words) {
      assert forall k :: 0 <= k < |words| ==> t[k] == heading[k];
    }
  }

  /** A `#`-free body followed by the end of the text or by a line break and `###`. */
  lemma NoStopInBody(body: string, tail: string)
    requires body != [] && '#' !in body
    requires tail == [] || StartsWith(tail, "\n###")
    ensures !StopsAt(body + tail, NextH3)
  {
    var t := body + tail;
    if |t| >= 2 {
      if |body| >= 2 {
        assert t[1] == body[1];
      } else {
        assert t[1] == tail[0];
      }
    }
  }

  /** The capture runs to the next `\n###` and no further. */
  lemma {:induction false} UpToSectionEnd(body: string, tail: string)
    requires '#' !in body
    requires tail == [] || StartsWith(tail, "\n###")
    ensures UpTo(body + tail, NextH3) == body
    decreases |body|
  {
    var t := body + tail;
    if body == [] {
      assert t == tail;
      if tail != [] {
        assert StopsAt(t, NextH3);
      }
    } else {
      NoStopInBody(body, tail);
      UpToStep(t, NextH3);
      SliceOfAppend(body, tail, 1);
      UpToSectionEnd(body[1..], tail);
      assert [body[0]] + body[1..] == body;
    }
  }

  /** The pieces the section pattern reads from a `### N. heading` line: after `###` and
      blanks comes `N.`, and after further blanks the heading. */
  lemma SectionHeaderPieces(number: char, v: string)
    requires !IsSpace(number) && v != [] && !IsSpace(v[0])
    ensures var t := "### " + [number] + ". " + v;
      && StartsWith(t, "###")
      && var u := TrimStart(t[3..], IsSpace);
      && |u| >= 2 && u[0] == number && u[1] == '.'
      && TrimStart(u[2..], IsSpace) == v
  {
    var u := [number] + ". " + v;
    var t := "### " + [number] + ". " + v;
    assert t[..3] == "###";
    assert t[3..] == " " + u;
    TrimStartPadded(" ", u, IsSpace);
    assert u[2..] == " " + v;
    TrimStartPadded(" ", v, IsSpace);
  }

  /** The lazy `.*?\n` after the heading words skips the rest of the heading line. */
  lemma SectionBodyAfterLine(line: string, rest: string)
    requires '\n' !in line
    ensures SectionBody(line + "\n" + rest, NextH3) == Some(UpTo(rest, NextH3))
  {
    assert line + "\n" + rest == line + ("\n" + rest);
    LineOfAppend(line, "\n" + rest);
    assert (line + ("\n" + rest))[|line| + 1..] == rest;
  }

  /** The section pattern once its `###` and number have matched. */
  lemma MatchSectionWords(t: string, wanted: char, words: string, v: string)
    requires StartsWith(t, "###")
    requires var u := TrimStart(t[3..], IsSpace);
      && |u| >= 2 && u[1] == '.' && TrimStart(u[2..], IsSpace) == v
    ensures MatchSection(t, wanted, words)
            == if TrimStart(t[3..], IsSpace)[0] == wanted && StartsWithCI(v, words)
               then SectionBody(v[|words|..], NextH3) else None
  {
  }

  /** The section pattern for section `wanted` at a `### N. heading` line: it matches when
      `N` is `wanted` and `words` starts the heading, and captures from the next line on. */
  lemma MatchSectionHeader(number: char, heading: string, rest: string, wanted: char, words: string)
    requires IsDigit(number) && heading != [] && !IsSpace(heading[0]) && '\n' !in heading
    requires '\n' !in words
    ensures MatchSection("### " + [number] + ". " + heading + "\n" + rest, wanted, words)
            == if number == wanted && StartsWithCI(heading, words) then Some(UpTo(rest, NextH3))
               else None
  {
    var v := heading + "\n" + rest;
    var t := "### " + [number] + ". " + heading + "\n" + rest;
    assert t == "### " + [number] + ". " + v;
    SectionHeaderPieces(number, v);
    MatchSectionWords(t, wanted, words, v);
    HeadingWords(heading, rest, words);
    if number == wanted && StartsWithCI(heading, words) {
      SliceOfAppend(heading, "\n" + rest, |words|);
      ConcatAssoc(heading, "\n", rest);
      ConcatAssoc(heading[|words|..], "\n", rest);
      SectionBodyAfterLine(heading[|words|..], rest);
    }
  }

  /** What the section pattern captures at the start of a section followed by `tail`. */
  lemma MatchAtSection(sec: Section, tail: string, wanted: char, words: string)
    requires WellFormed(sec) && '\n' !in words
    requires tail == [] || StartsWith(tail, "\n###")
    ensures MatchPrefix(SectionText(sec) + tail, NumberedSection(wanted, words))
            == if sec.number == wanted && StartsWithCI(sec.heading, words) then Some(sec.body)
               else None
  {
    assert SectionText(sec) + tail
        == "### " + [sec.number] + ". " + sec.heading + "\n" + (sec.body + tail);
    MatchSectionHeader(sec.number, sec.heading, sec.body + tail, wanted, words);
    UpToSectionEnd(sec.body, tail);
  }

  /** Inside a section, after its first character and up to the newline that ends it, no
      `###` begins. */
  lemma NoMarkerInsideSection(sec: Section, y: string)
    requires WellFormed(sec) && (y == [] || y[0] == '\n')
    ensures forall q :: 1 <= q <= |SectionText(sec)| ==>
      !StartsWith((SectionText(sec) + y)[q..], "###")
  {
    var x := SectionText(sec);
    var s := x + y;
    assert x[3..] == " " + [sec.number] + ". " + sec.heading + "\n" + sec.body;
    assert forall q :: 3 <= q < |x| ==> x[q] != '#' by {
      forall q | 3 <= q < |x| ensures x[q] != '#' {
        assert x[q] == x[3..][q - 3];
      }
    }
    forall q | 1 <= q <= |x| ensures !StartsWith(s[q..], "###") {
      if q < 3 {
        assert s[3] == ' ';
        assert |s[q..]| >= 3 && s[q..][3 - q] == ' ';
      } else if q < |x| {
        assert s[q..][0] == x[q];
      } else if y != [] {
        assert s[q..] == y;
      }
    }
  }

  /** The section pattern needs `###` where it starts. */
  lemma NoSectionWithoutMarker(t: string, wanted: char, words: string)
    requires !StartsWith(t, "###")
    ensures Matcher(NumberedSection(wanted, words))(t).None?
  {
  }

  lemma MarkerLiterals()
    ensures StartsWith("### ", "###") && "\n" + "###" == "\n###"
  {
  }

  /** A section text starts with its `###` marker. */
  lemma SectionTextStart(sec: Section, y: string)
    ensures StartsWith(SectionText(sec) + y, "###")
  {
    MarkerLiterals();
    var a := "### " + [sec.number];
    StartsWithExtend("### ", "###", [sec.number]);
    StartsWithExtend(a, "###", ". ");
    StartsWithExtend(a + ". ", "###", sec.heading);
    StartsWithExtend(a + ". " + sec.heading, "###", "\n");
    StartsWithExtend(a + ". " + sec.heading + "\n", "###", sec.body);
    StartsWithExtend(SectionText(sec), "###", y);
  }

  /** What follows the first of several sections: a newline and the next section's marker. */
  lemma SectionsTail(secs: seq<Section>)
    requires |secs| > 1
    ensures Sections(secs) == SectionText(secs[0]) + ("\n" + Sections(secs[1..]))
    ensures StartsWith("\n" + Sections(secs[1..]), "\n###")
  {
    var rest := secs[1..];
    ConcatAssoc(SectionText(secs[0]), "\n", Sections(rest));
    assert StartsWith(Sections(rest), "###") by {
      if |rest| == 1 {
        SectionTextStart(rest[0], []);
        assert SectionText(rest[0]) + [] == Sections(rest);
      } else {
        SectionTextStart(rest[0], "\n" + Sections(rest[1..]));
        ConcatAssoc(SectionText(rest[0]), "\n", Sections(rest[1..]));
      }
    }
    StartsWithBoth("\n", Sections(rest), "###");
    MarkerLiterals();
  }

  /** The section search over a sequence of sections finds the first matching section and
      captures exactly its body. */
  lemma {:induction false} SectionSearch(secs: seq<Section>, number: char, words: string)
    requires forall i :: 0 <= i < |secs| ==> WellFormed(secs[i])
    requires '\n' !in words
    ensures FindCapture(Sections(secs), NumberedSection(number, words)) == FirstBody(secs, number, words)
    decreases |secs|
  {
    var re := NumberedSection(number, words);
    var m := Matcher(re);
    var doc := Sections(secs);
    if secs == [] {
      assert m(doc[0..]).None?;
    } else {
      var sec := secs[0];
      var x := SectionText(sec);
      var tail := if |secs| == 1 then [] else "\n" + Sections(secs[1..]);
      assert doc == x + tail && (tail == [] || StartsWith(tail, "\n###")) by {
        if |secs| > 1 {
          SectionsTail(secs);
        }
      }
      var found := sec.number == number && StartsWithCI(sec.heading, words);
      assert m(doc[0..]) == (if found then Some(sec.body) else None) by {
        assert doc[0..] == doc;
        assert WellFormed(sec);
        MatchAtSection(sec, tail, number, words);
      }
      if found {
        assert FindCapture(doc, re) == Some(sec.body) by {
          SearchHere(doc, 0, m);
        }
      } else {
        assert FirstBody(secs, number, words) == FirstBody(secs[1..], number, words);
        var j := if |secs| == 1 then |x| else |x| + 1;
        assert FindCapture(doc, re) == Search(doc, j, m) && m(doc[|x|..]).None? by {
          assert WellFormed(sec) && (tail == [] || tail[0] == '\n');
          NoMarkerInsideSection(sec, tail);
          forall q | 0 <= q <= |x| ensures m(doc[q..]).None? {
            if q > 0 {
              NoSectionWithoutMarker(doc[q..], number, words);
            }
          }
          SearchPasses(doc, 0, j, m);
        }
        if |secs| == 1 {
          assert doc[|x|..] == [];
        } else {
          var rest := Sections(secs[1..]);
          var x1 := x + "\n";
          assert doc == x1 + rest && j == |x1| + 0 by {
            ConcatAssoc(x, "\n", rest);
          }
          SearchShift(x1, rest, 0, m);
          assert Search(rest, 0, m) == FirstBody(secs[1..], number, words) by {
            SectionSearch(secs[1..], number, words);
          }
        }
      }
    }
  }

  // ---- Texts without a pattern ----

  /** The pattern fails at every position of `s`, so the search finds nothing. */
  lemma SearchFindsNothing(s: string, re: Regex)
    requires forall q :: 0 <= q <= |s| ==> Matcher(re)(s[q..]).None?
    ensures FindCapture(s, re).None?
  {
    SearchPasses(s, 0, |s|, Matcher(re));
  }

  /** A text without `#` holds no numbered section. */
  lemma NoSectionWithoutHash(s: string, number: char, words: string)
    requires '#' !in s
    ensures FindCapture(s, NumberedSection(number, words)).None?
  {
    forall q | 0 <= q <= |s| ensures Matcher(NumberedSection(number, words))(s[q..]).None? {
      if q < |s| {
        assert s[q..][0] == s[q];
      }
      NoSectionWithoutMarker(s[q..], number, words);
    }
    SearchFindsNothing(s, NumberedSection(number, words));
  }

  /** Text that may come before the numbered sections: it holds no `###` and does not end
      with `#`, so a `# Title` line or a metadata table is allowed. */
  predicate IsPreamble(pre: string) {
    !Contains(pre, "###") && (pre == [] || pre[|pre| - 1] != '#')
  }

  /** A text without `#` is a preamble. */
  lemma HashFreePreamble(pre: string)
    requires '#' !in pre
    ensures IsPreamble(pre)
  {
    forall i | 0 <= i <= |pre| ensures !StartsWith(pre[i..], "###") {
      if i < |pre| {
        assert pre[i..][0] == pre[i];
      }
      DiffersAt(pre[i..], "###", 0);
    }
    ContainsIff(pre, "###");
  }

  /** A `# title` line followed by `#`-free text (a metadata table, say) is a preamble. */
  lemma TitleLinePreamble(x: string)
    requires '#' !in x && x != []
    ensures IsPreamble("#" + x)
  {
    HashFreePreamble(x);
    assert ("#" + x)[1] == x[0];
    DiffersAt("#" + x, "###", 1);
    assert ("#" + x)[1..] == x;
    assert ("#" + x)[|x|] == x[|x| - 1];
  }

  /** A text without `###` has no `###` at any of its positions. */
  lemma NoMarkerAt(pre: string, q: nat)
    requires !Contains(pre, "###") && q <= |pre|
    ensures !StartsWith(pre[q..], "###")
  {
    if StartsWith(pre[q..], "###") {
      ContainsFrom(pre, q, "###");
    }
  }

  /** No numbered section starts inside a preamble, whatever follows it. */
  lemma NoMarkerInPreamble(pre: string, s: string, q: nat)
    requires IsPreamble(pre) && q < |pre|
    ensures !StartsWith((pre + s)[q..], "###")
  {
    var t := (pre + s)[q..];
    assert t[0] == pre[q];
    if pre[q] != '#' {
      DiffersAt(t, "###", 0);
    } else {
      assert q + 1 < |pre|;
      assert t[1] == pre[q + 1];
      if pre[q + 1] != '#' {
        DiffersAt(t, "###", 1);
      } else {
        assert q + 2 < |pre|;
        NoMarkerAt(pre, q);
        assert pre[q..][..3] == [pre[q], pre[q + 1], pre[q + 2]];
        assert t[2] == pre[q + 2];
        DiffersAt(t, "###", 2);
      }
    }
  }

  /** A preamble does not change what a numbered-section search finds. */
  lemma PreambleIgnored(pre: string, s: string, number: char, words: string)
    requires IsPreamble(pre)
    ensures FindCapture(pre + s, NumberedSection(number, words))
         == FindCapture(s, NumberedSection(number, words))
  {
    var m := Matcher(NumberedSection(number, words));
    forall q | 0 <= q < |pre| ensures m((pre + s)[q..]).None? {
      NoMarkerInPreamble(pre, s, q);
      NoSectionWithoutMarker((pre + s)[q..], number, words);
    }
    SearchPasses(pre + s, 0, |pre|, m);
    SearchShift(pre, s, 0, m);
  }

  /** Where the fallback summary pattern matches, the phrase "Meeting Summary" starts at
      some position. */
  lemma LooseSummaryNeedsPhrase(t: string)
    requires MatchLooseSummary(t).Some?
    ensures exists j :: 0 <= j <= |t| && StartsWithCI(t[j..], "Meeting Summary")
  {
    var r := LooseMarkerEnd(t);
    assert r.Some?;
    var u := r.value;
    var v := TrimStart(u, IsSpace);
    assert StartsWithCI(v, "Meeting Summary");
    assert |u| <= |t| && u == t[|t| - |u|..];
    assert |v| <= |u| && v == u[|u| - |v|..];
    SuffixOfSuffix(t, u, v);
  }

  /** A text that nowhere mentions "Meeting Summary" (in any case) does not match the fallback
      summary pattern. */
  lemma NoLooseSummaryWithoutPhrase(s: string)
    requires forall j :: 0 <= j <= |s| ==> !StartsWithCI(s[j..], "Meeting Summary")
    ensures FindCapture(s, LooseSummary).None?
  {
    forall q | 0 <= q <= |s| ensures Matcher(LooseSummary)(s[q..]).None? {
      if MatchLooseSummary(s[q..]).Some? {
        LooseSummaryNeedsPhrase(s[q..]);
      }
    }
    SearchFindsNothing(s, LooseSummary);
  }

  // ---- Loosely marked summaries ----

  /** The phrase the fallback summary pattern looks for. */
  const LoosePhrase: string := "Meeting Summary"

  /** The heading of a loosely marked summary section: `## Meeting Summary` on its own line. */
  const LooseSummaryHeading: string := "## " + LoosePhrase + "\n"

  /** A character that can start a loose section marker: `#`, `*` or a digit. */
  predicate StartsLooseMarker(c: char) {
    c == '#' || c == '*' || IsDigit(c)
  }

  /** A loosely marked summary body: every line break is followed by a character that cannot
      start a loose section marker, so no line of the body ends the capture. */
  predicate IsLooseBody(body: string) {
    forall j :: 0 <= j < |body| && body[j] == '\n' ==>
      j + 1 < |body| && !StartsLooseMarker(body[j + 1])
  }

  /** A text whose first character cannot start a marker does not start with one. */
  lemma NotLooseMarker(t: string)
    requires t != [] && !StartsLooseMarker(t[0])
    ensures !LooseMarker(t)
  {
  }

  /** The tail of a loose body is a loose body. */
  lemma LooseBodyTail(body: string)
    requires body != [] && IsLooseBody(body)
    ensures IsLooseBody(body[1..])
  {
    forall j | 0 <= j < |body[1..]| && body[1..][j] == '\n'
      ensures j + 1 < |body[1..]| && !StartsLooseMarker(body[1..][j + 1])
    {
      assert body[j + 1] == '\n';
    }
  }

  /** A loose body does not begin with a stop, whatever comes after it. */
  lemma NoLooseStopAt(body: string, stop: string)
    requires body != [] && IsLooseBody(body)
    ensures !StopsAt(body + stop, NextLooseHeading)
  {
    var t := body + stop;
    if t[0] == '\n' {
      assert body[0] == '\n';
      assert t[1..][0] == body[1];
      NotLooseMarker(t[1..]);
    }
  }

  /** The capture of the fallback pattern runs over a loose body and stops where a marker line
      or the end of the text follows. */
  lemma {:induction false} UpToLooseBody(body: string, stop: string)
    requires IsLooseBody(body) && (stop == [] || StopsAt(stop, NextLooseHeading))
    ensures UpTo(body + stop, NextLooseHeading) == body
    decreases |body|
  {
    if body == [] {
      AppendEmpty(stop);
    } else {
      UpToLooseStep(body, stop);
      LooseBodyTail(body);
      UpToLooseBody(body[1..], stop);
      HeadTail(body);
    }
  }

  /** One character of a loose body is taken into the capture. */
  lemma UpToLooseStep(body: string, stop: string)
    requires body != [] && IsLooseBody(body)
    ensures UpTo(body + stop, NextLooseHeading) == [body[0]] + UpTo(body[1..] + stop, NextLooseHeading)
  {
    NoLooseStopAt(body, stop);
    UpToStep(body + stop, NextLooseHeading);
    SliceOfAppend(body, stop, 1);
  }

  /** The heading of a loose summary followed by `x`, regrouped as the pattern reads it. */
  lemma LooseHeadingPieces(x: string)
    ensures LooseSummaryHeading + x == "##" + (" " + (LoosePhrase + ("\n" + x)))
  {
    assert "## " == "##" + " ";
    ConcatAssoc("##", " ", LoosePhrase);
    ConcatAssoc("## " + LoosePhrase, "\n", x);
    ConcatAssoc("## ", LoosePhrase, "\n" + x);
    ConcatAssoc("##", " ", LoosePhrase + ("\n" + x));
  }

  /** `##` is a loose marker. */
  lemma LooseMarkerHashes(w: string)
    ensures LooseMarkerEnd("##" + w) == Some(w)
  {
    StartsWithConcat("##", w);
    assert ("##" + w)[2..] == w;
  }

  /** A capture that starts right after the heading line's newline. */
  lemma SectionBodyAtNewline(x: string, stop: Stop)
    ensures SectionBody("\n" + x, stop) == Some(UpTo(x, stop))
  {
    assert ("\n" + x)[1..] == x;
  }

  /** The fallback pattern after its marker: whitespace, the phrase, the rest of the heading
      line, and the capture. */
  lemma LooseAfterMarker(x: string)
    ensures MatchLooseSummary("##" + (" " + (LoosePhrase + ("\n" + x))))
            == Some(UpTo(x, NextLooseHeading))
  {
    var y := "\n" + x;
    var v := LoosePhrase + y;
    LooseMarkerHashes(" " + v);
    TrimStartPadded(" ", v, IsSpace);
    StartsWithCIConcat(LoosePhrase, y);
    assert v[15..] == y;
    SectionBodyAtNewline(x, NextLooseHeading);
  }

  /** The fallback summary pattern at `## Meeting Summary` captures the loose body after it. */
  lemma LooseSummaryAt(body: string, stop: string)
    requires IsLooseBody(body) && (stop == [] || StopsAt(stop, NextLooseHeading))
    ensures MatchLooseSummary(LooseSummaryHeading + (body + stop)) == Some(body)
  {
    LooseHeadingPieces(body + stop);
    LooseAfterMarker(body + stop);
    UpToLooseBody(body, stop);
  }

  /** Past its two `#`, a loose summary heading and a `#`-free body hold no `#`. */
  lemma LooseHeadingHashes(body: string)
    requires '#' !in body
    ensures var t := LooseSummaryHeading + body;
      |t| > 2 && t[2] == ' ' && forall k :: 2 <= k < |t| ==> t[k] != '#'
  {
    var t := LooseSummaryHeading + body;
    var x := " " + LoosePhrase + "\n";
    assert '#' !in x;
    LooseHeadingPieces(body);
    assert t == "##" + (x + body) by {
      ConcatAssoc(" ", LoosePhrase, "\n");
      ConcatAssoc(" " + LoosePhrase, "\n", body);
      ConcatAssoc(" ", LoosePhrase, "\n" + body);
    }
    forall k | 2 <= k < |t| ensures t[k] != '#' {
      assert t[k] == (x + body)[k - 2];
    }
  }

  /** A loose summary heading over a `#`-free body holds no numbered section. */
  lemma NoSectionInLooseSummary(body: string, number: char, words: string)
    requires '#' !in body
    ensures FindCapture(LooseSummaryHeading + body, NumberedSection(number, words)).None?
  {
    var t := LooseSummaryHeading + body;
    LooseHeadingHashes(body);
    forall q | 0 <= q <= |t| ensures Matcher(NumberedSection(number, words))(t[q..]).None? {
      var k := if q < 2 then 2 else q;
      if k < |t| {
        assert t[q..][k - q] == t[k];
      }
      DiffersAt(t[q..], "###", k - q);
      NoSectionWithoutMarker(t[q..], number, words);
    }
    SearchFindsNothing(t, NumberedSection(number, words));
  }

  // ---- Titles ----

  /** `| **1. Meeting Title** | title |` */
  function TitleRow(title: string): string {
    "|" + CellsText([TitleLabel, title])
  }

  /** A title row is the bar, the padded label, a bar and the padded title cell. */
  lemma TitleRowShape(title: string, post: string)
    ensures TitleRow(title) + post
            == "|" + (" " + (TitleLabel + (" " + ("|" + (CellsText([title]) + post)))))
  {
    assert [TitleLabel, title][1..] == [title];
    assert CellsText([TitleLabel, title]) == " " + TitleLabel + " |" + CellsText([title]);
  }

  /** The metadata-title pattern at a bar, the label and a second bar reads a cell after it. */
  lemma MatchTitleRowAt(b: string)
    requires b != [] && !IsSpace(b[0])
    ensures MatchTitleRow("|" + (" " + b)) == TitleAfterBar(b)
  {
    var t := "|" + (" " + b);
    assert t[1..] == " " + b;
    TrimStartPadded(" ", b, IsSpace);
  }

  /** After the label and its spaces the title pattern goes on at the next character. */
  lemma TitleAfterBarAt(d: string)
    requires d != [] && !IsSpace(d[0])
    ensures TitleAfterBar(TitleLabel + (" " + d)) == TitleAfterLabel(d)
  {
    var b := TitleLabel + (" " + d);
    assert b[..|TitleLabel|] == TitleLabel;
    assert b[|TitleLabel|..] == " " + d;
    TrimStartPadded(" ", d, IsSpace);
  }

  /** After the second bar the title pattern reads one cell. */
  lemma TitleAfterLabelAt(rest: string, cell: string, tail: string)
    requires MatchCells(rest, 1) == Some(([cell], tail))
    ensures TitleAfterLabel("|" + rest) == Some(cell)
  {
    assert ("|" + rest)[1..] == rest;
  }

  /** The metadata-title pattern reads the second cell of a title row. */
  lemma MatchTitleRowRendered(title: string, post: string)
    requires IsCell(title)
    ensures Matcher(MetadataTitle)(TitleRow(title) + post) == Some(title)
  {
    var y := TitleRow(title) + post;
    assert MatchTitleRow(y) == Some(title) by {
      var rest := CellsText([title]) + post;
      MatchCellsRendered([title], post);
      var d := "|" + rest;
      TitleAfterLabelAt(rest, title, post);
      TitleAfterBarAt(d);
      MatchTitleRowAt(TitleLabel + (" " + d));
      TitleRowShape(title, post);
    }
    TitleMatcher();
  }

  /** At a bar followed, past whitespace, by something other than a star, the title pattern
      fails: the label starts with `**`. */
  lemma NoTitleRowAtBar(t: string)
    requires t != [] && t[0] == '|'
    requires var u := TrimStart(t[1..], IsSpace); u != [] && u[0] != '*'
    ensures MatchTitleRow(t).None?
  {
    assert TitleLabel[0] == '*';
  }

  /** No title row starts inside star-free text that is followed by a bar. */
  lemma NoTitleRowBefore(pre: string, y: string)
    requires '*' !in pre && y != [] && y[0] == '|'
    ensures forall q :: 0 <= q < |pre| ==> MatchTitleRow((pre + y)[q..]).None?
  {
    var s := pre + y;
    forall q | 0 <= q < |pre| ensures MatchTitleRow(s[q..]).None? {
      assert s[q..][0] == pre[q];
      if pre[q] == '|' {
        assert s[q..][1..] == pre[q + 1..] + y;
        TrimStartFirst(pre[q + 1..], y, IsSpace, '*');
        NoTitleRowAtBar(s[q..]);
      }
    }
  }

  /** A title row after star-free text is what the metadata search finds, so bars before it
      (such as the metadata table's `| Field | Detail |` header and its separator row) do not
      matter. */
  lemma TitleRowFound(pre: string, title: string, post: string)
    requires '*' !in pre && IsCell(title)
    ensures FindCapture(pre + TitleRow(title) + post, MetadataTitle) == Some(title)
  {
    var m := Matcher(MetadataTitle);
    var y := TitleRow(title) + post;
    var s := pre + y;
    assert Search(s, 0, m) == Search(s, |pre|, m) by {
      NoTitleRowBefore(pre, y);
      TitleMatcher();
      SearchPasses(s, 0, |pre|, m);
    }
    SearchShift(pre, y, 0, m);
    assert Search(y, 0, m) == Some(title) by {
      MatchTitleRowRendered(title, post);
      assert y[0..] == y;
      SearchHere(y, 0, m);
    }
    ConcatAssoc(pre, TitleRow(title), post);
  }

  /** A text that nowhere contains the title label holds no title row. */
  lemma NoTitleRowWithoutLabel(s: string)
    requires !Contains(s, TitleLabel)
    ensures FindCapture(s, MetadataTitle).None?
  {
    forall q | 0 <= q <= |s| ensures Matcher(MetadataTitle)(s[q..]).None? {
      TitleMatcher();
      if q < |s| && s[q] == '|' {
        var u := TrimStart(s[q..][1..], IsSpace);
        assert s[q..][1..] == s[q + 1..];
        if StartsWith(u, TitleLabel) {
          assert Contains(u, TitleLabel);
          assert u == s[|s| - |u|..];
          ContainsFrom(s, |s| - |u|, TitleLabel);
        }
      }
    }
    SearchFindsNothing(s, MetadataTitle);
  }

  /** A text without a bar holds no title row. */
  lemma NoTitleRowWithoutBar(s: string)
    requires '|' !in s
    ensures FindCapture(s, MetadataTitle).None?
  {
    forall q | 0 <= q <= |s| ensures Matcher(MetadataTitle)(s[q..]).None? {
      if q < |s| {
        assert s[q..][0] == s[q];
      }
    }
    SearchFindsNothing(s, MetadataTitle);
  }

  /** `# (.*)` at a `# ` reads the rest of the line. */
  lemma MatchHeadingAt(line: string, post: string)
    requires '\n' !in line && (post == [] || post[0] == '\n')
    ensures Matcher(Heading)("# " + (line + post)) == Some(line)
  {
    var y := "# " + (line + post);
    assert y[..2] == "# ";
    assert y[2..] == line + post;
    LineOfAppend(line, post);
  }

  /** The heading search takes the rest of the line after the first `# `. */
  lemma HeadingFound(pre: string, line: string, post: string)
    requires '#' !in pre && '\n' !in line && (post == [] || post[0] == '\n')
    ensures FindCapture(pre + "# " + line + post, Heading) == Some(line)
  {
    var m := Matcher(Heading);
    var y := "# " + (line + post);
    var s := pre + y;
    forall q | 0 <= q < |pre| ensures m(s[q..]).None? {
      assert s[q..][0] == pre[q];
    }
    SearchPasses(s, 0, |pre|, m);
    SearchShift(pre, y, 0, m);
    MatchHeadingAt(line, post);
    assert y[0..] == y;
    SearchHere(y, 0, m);
    ConcatAssoc(pre, "# ", line + post);
    ConcatAssoc(pre + "# ", line, post);
  }

  /** `# ` cannot match where the second character is another `#`. */
  lemma NoHeadingBeforeHash(t: string)
    requires |t| >= 2 && t[1] == '#'
    ensures Matcher(Heading)(t).None?
  {
    assert t[..2][1] == '#';
  }

  /** A text without `#` holds no heading. */
  lemma NoHeadingWithoutHash(s: string)
    requires '#' !in s
    ensures FindCapture(s, Heading).None?
  {
    forall q | 0 <= q <= |s| ensures Matcher(Heading)(s[q..]).None? {
      if q < |s| {
        assert s[q..][0] == s[q];
      }
    }
    SearchFindsNothing(s, Heading);
  }

  /** The heading search is not anchored to level-one headings: in `### rest` it matches at
      the third `#` and returns `rest`. */
  lemma HeadingInsideH3(pre: string, rest: string, post: string)
    requires '#' !in pre && '\n' !in rest && (post == [] || post[0] == '\n')
    ensures FindCapture(pre + "### " + rest + post, Heading) == Some(rest)
  {
    var m := Matcher(Heading);
    var y := "# " + (rest + post);
    var x := pre + "##";
    var s := x + y;
    forall q | 0 <= q < |x| ensures m(s[q..]).None? {
      if q < |pre| {
        assert s[q..][0] == pre[q];
      } else if q == |pre| {
        assert s[q + 1] == x[q + 1] == '#';
        NoHeadingBeforeHash(s[q..]);
      } else {
        assert s[q + 1] == y[0] == '#';
        NoHeadingBeforeHash(s[q..]);
      }
    }
    SearchPasses(s, 0, |x|, m);
    SearchShift(x, y, 0, m);
    MatchHeadingAt(rest, post);
    assert y[0..] == y;
    SearchHere(y, 0, m);
    ConcatAssoc(pre, "##", y);
    assert "##" + y == "### " + (rest + post);
    ConcatAssoc(pre, "### ", rest + post);
    ConcatAssoc(pre + "### ", rest, post);
  }
}
