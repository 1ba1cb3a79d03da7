/** `convertTableToHTML` and the `parseCells` function nested in it: a row is
    split on `|`, its cells are trimmed, and the table becomes one piece of
    HTML with a header row of `<th>` cells and a body of `<td>` rows. */
module Table {
  import opened Text

  /** The pieces of a row split on `|`, empty ones kept, each trimmed of
      spaces and tabs. */
  function TrimmedPieces(line: string): seq<string> {
    var parts := SplitOn(line, "|");
    seq(|parts|, k requires 0 <= k < |parts| => Trim(parts[k], Whitespaces))
  }

  /** `cells` is `pieces` with its first element removed exactly when that
      is empty, and then the last remaining element removed exactly when
      that is empty; `a` says whether the first one went. */
  predicate DropsEmptyEnds(pieces: seq<string>, cells: seq<string>, a: nat) {
    && a <= 1
    && a + |cells| <= |pieces| <= a + |cells| + 1
    && cells == pieces[a..a + |cells|]
    && (a == 1 <==> |pieces| > 0 && pieces[0] == [])
    && (a + |cells| < |pieces| <==> |pieces| > a && pieces[|pieces| - 1] == [])
  }

  /** Remove the first piece if it is empty, then the last piece if it is empty. */
  function DropEmptyEnds(pieces: seq<string>): (cells: seq<string>)
    ensures exists a: nat :: DropsEmptyEnds(pieces, cells, a)
  {
    var a: nat := if |pieces| > 0 && pieces[0] == [] then 1 else 0;
    var front := pieces[a..];
    var cells := if |front| > 0 && front[|front| - 1] == [] then front[..|front| - 1] else front;
    assert DropsEmptyEnds(pieces, cells, a);
    cells
  }

  /** `parseCells`: split on `|`, trim every piece, then drop an empty first
      piece and an empty last piece. Every cell is trimmed and holds no `|`,
      and a row with n pipes has n + 1 cells less zero, one or two. */
  function ParseCells(line: string): (cells: seq<string>)
    ensures forall k :: 0 <= k < |cells| ==> IsTrimmed(cells[k], Whitespaces)
    ensures forall k :: 0 <= k < |cells| ==> '|' !in cells[k]
    ensures |cells| <= multiset(line)['|'] + 1 <= |cells| + 2
    ensures exists a: nat :: DropsEmptyEnds(TrimmedPieces(line), cells, a)
  {
    var cells := DropEmptyEnds(TrimmedPieces(line));
    CellsArePieces(line, cells);
    cells
  }

  /** The cells left after dropping empty ends are trimmed pieces of the
      row, and there are as many as the pieces less at most two. */
  lemma CellsArePieces(line: string, cells: seq<string>)
    requires exists a: nat :: DropsEmptyEnds(TrimmedPieces(line), cells, a)
    ensures forall k :: 0 <= k < |cells| ==> IsTrimmed(cells[k], Whitespaces) && '|' !in cells[k]
    ensures |cells| <= multiset(line)['|'] + 1 <= |cells| + 2
  {
    var pieces := TrimmedPieces(line);
    PiecesHaveNoPipe(line);
    SplitCount(line, '|');
    assert "|" == ['|'];
    var a: nat :| DropsEmptyEnds(pieces, cells, a);
    CellsSlice(pieces, cells, a);
  }

  /** The cells are the pieces from `a` on, less at most two in all. */
  lemma CellsSlice(pieces: seq<string>, cells: seq<string>, a: nat)
    requires DropsEmptyEnds(pieces, cells, a)
    ensures forall k :: 0 <= k < |cells| ==> cells[k] == pieces[a + k]
    ensures |cells| <= |pieces| <= |cells| + 2
  {
  }

  /** No trimmed piece of a row contains `|`. */
  lemma PiecesHaveNoPipe(line: string)
    ensures forall k :: 0 <= k < |TrimmedPieces(line)| ==> '|' !in TrimmedPieces(line)[k]
  {
    var parts := SplitOn(line, "|");
    SplitPiecesFree(line, "|");
    forall k | 0 <= k < |parts|
      ensures '|' !in Trim(parts[k], Whitespaces)
    {
      TrimKeeps(parts[k], Whitespaces, '|');
      if '|' in parts[k] {
        var j :| 0 <= j < |parts[k]| && parts[k][j] == '|';
        assert parts[k][j..j + 1] == "|";
        assert OccursAt(parts[k], "|", j);
      }
    }
  }

  /** `<tag>cell</tag>` for every cell, in order. */
  function CellsHTML(tag: string, cells: seq<string>): string
    decreases |cells|
  {
    if |cells| == 0 then ""
    else "<" + tag + ">" + cells[0] + "</" + tag + ">" + CellsHTML(tag, cells[1..])
  }

  /** `<tr>` followed by the `<td>` cells and `</tr>` and a newline, for every row. */
  function RowsHTML(rows: seq<seq<string>>): string
    decreases |rows|
  {
    if |rows| == 0 then ""
    else "<tr>" + CellsHTML("td", rows[0]) + "</tr>\n" + RowsHTML(rows[1..])
  }

  /** The table markup for a header row of cells and body rows of cells. */
  function TableHTML(header: seq<string>, body: seq<seq<string>>): string {
    TableOpen + CellsHTML("th", header) + "</tr>\n</thead>\n<tbody>\n"
      + RowsHTML(body) + TableClose
  }

  /** The cells of every line. */
  function RowCells(lines: seq<string>): (rows: seq<seq<string>>)
    ensures |rows| == |lines|
  {
    seq(|lines|, k requires 0 <= k < |lines| => ParseCells(lines[k]))
  }

  /** `convertTableToHTML`. Fewer than two lines are joined back unchanged;
      otherwise the result is one table whose header holds the cells of the
      first line and whose body holds the cells of every line after the
      second, and it starts and ends with the table's own tags. */
  function ConvertTable(lines: seq<string>): (html: string)
    ensures |lines| == 0 ==> html == ""
    ensures |lines| == 1 ==> html == lines[0]
    ensures |lines| >= 2 ==> StartsWith(html, TableOpen) && EndsWith(html, TableClose)
  {
    if |lines| < 2 then Join(lines, "\n")
    else
      var header := ParseCells(lines[0]);
      var body := RowCells(lines[2..]);
      TableFrame(header, body);
      TableHTML(header, body)
  }

  const TableOpen := "<table>\n<thead>\n<tr>"
  const TableClose := "</tbody>\n</table>"

  /** The table markup opens with the table, head and row tags and closes
      with the body and table end tags. */
  lemma TableFrame(header: seq<string>, body: seq<seq<string>>)
    ensures StartsWith(TableHTML(header, body), TableOpen)
    ensures EndsWith(TableHTML(header, body), TableClose)
  {
    var middle := CellsHTML("th", header) + "</tr>\n</thead>\n<tbody>\n" + RowsHTML(body);
    assert TableHTML(header, body) == TableOpen + middle + TableClose;
    var t := TableOpen + middle + TableClose;
    assert t[..|TableOpen|] == TableOpen;
    assert t[|t| - |TableClose|..] == TableClose;
  }

  /** A single line that is not a table is returned as it is: `["| A |"]` gives `"| A |"`. */
  lemma ShortTableExample()
    ensures ConvertTable(["| A |"]) == "| A |"
  {
  }

  /** The second line (the separator) never influences the result. */
  lemma SeparatorIgnored(lines: seq<string>, other: string)
    requires |lines| >= 2
    ensures ConvertTable(lines[1 := other]) == ConvertTable(lines)
  {
    assert lines[1 := other][2..] == lines[2..];
  }

  /** A row of cells written the usual Markdown way, `| c1 | c2 | … |`: every
      cell padded by one space and the row opened and closed by a pipe. */
  function RowLine(cells: seq<string>): string {
    Join([""] + Padded(cells) + [""], "|")
  }

  function Padded(cells: seq<string>): (p: seq<string>)
    ensures |p| == |cells|
  {
    seq(|cells|, k requires 0 <= k < |cells| => " " + cells[k] + " ")
  }

  /** Cells that a row can hold: trimmed and free of `|`. */
  predicate WellFormedCells(cells: seq<string>) {
    |cells| >= 1 && forall k :: 0 <= k < |cells| ==> IsTrimmed(cells[k], Whitespaces) && '|' !in cells[k]
  }

  /** Parsing a written row gives back its cells, an empty first or last cell
      included: only the empty pieces outside the outer pipes are dropped. */
  lemma ParseRowLine(cells: seq<string>)
    requires WellFormedCells(cells)
    ensures ParseCells(RowLine(cells)) == cells
  {
    RowLinePieces(cells);
    var pieces := [""] + cells + [""];
    assert pieces[1..][..|cells|] == cells;
    assert DropEmptyEnds(pieces) == cells;
  }

  /** The trimmed pieces of a written row are its cells between two empty pieces. */
  lemma RowLinePieces(cells: seq<string>)
    requires WellFormedCells(cells)
    ensures TrimmedPieces(RowLine(cells)) == [""] + cells + [""]
  {
    var parts := [""] + Padded(cells) + [""];
    RowLineSplit(cells);
    var pieces := TrimmedPieces(RowLine(cells));
    var want := [""] + cells + [""];
    EmptyTrim();
    forall k | 0 <= k < |pieces|
      ensures pieces[k] == want[k]
    {
      if 0 < k < |pieces| - 1 {
        PaddedTrim(cells, k - 1);
      }
    }
  }

  /** A written row splits on `|` into its padded cells between two empty pieces. */
  lemma RowLineSplit(cells: seq<string>)
    requires WellFormedCells(cells)
    ensures SplitOn(RowLine(cells), "|") == [""] + Padded(cells) + [""]
  {
    var parts := [""] + Padded(cells) + [""];
    assert forall k :: 0 <= k < |parts| ==> '|' !in parts[k];
    SplitJoin(parts, '|');
    assert "|" == ['|'];
  }

  /** A padded cell trims back to the cell. */
  lemma PaddedTrim(cells: seq<string>, k: nat)
    requires WellFormedCells(cells)
    requires k < |cells|
    ensures Trim(Padded(cells)[k], Whitespaces) == cells[k]
  {
    TrimPadded(cells[k]);
  }

  lemma EmptyTrim()
    ensures Trim("", Whitespaces) == ""
  {
    var r := Trim("", Whitespaces);
    assert |r| <= 0;
  }

  /** The lines of a written table: a header row, any separator line, and body rows. */
  function WrittenTable(header: seq<string>, separator: string, body: seq<seq<string>>): (lines: seq<string>)
    ensures |lines| == |body| + 2
  {
    [RowLine(header), separator] + seq(|body|, k requires 0 <= k < |body| => RowLine(body[k]))
  }

  /** Converting a written table renders exactly its cells: the header cells
      as `<th>` and each body row's cells as `<td>`, in order. */
  lemma ConvertWrittenTable(header: seq<string>, separator: string, body: seq<seq<string>>)
    requires WellFormedCells(header)
    requires forall r :: 0 <= r < |body| ==> WellFormedCells(body[r])
    ensures ConvertTable(WrittenTable(header, separator, body)) == TableHTML(header, body)
  {
    var lines := WrittenTable(header, separator, body);
    ParseRowLine(header);
    forall r | 0 <= r < |body|
      ensures RowCells(lines[2..])[r] == body[r]
    {
      ParseRowLine(body[r]);
    }
    assert RowCells(lines[2..]) == body;
  }
}
