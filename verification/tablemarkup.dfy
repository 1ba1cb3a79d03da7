/** Why tables are converted before escaping: the tags the table pass
    generates come through the escaper unchanged, while the text of every
    cell still has its `&` and `>` replaced by entities. */
module TableMarkup {
  import opened Escaper
  import opened Table

  /** Cells none of which opens a tag. */
  predicate NoOpenAngle(cells: seq<string>) {
    forall k :: 0 <= k < |cells| ==> '<' !in cells[k]
  }

  /** Rows none of whose cells opens a tag. */
  predicate NoOpenAngleRows(rows: seq<seq<string>>) {
    forall r :: 0 <= r < |rows| ==> NoOpenAngle(rows[r])
  }

  /** Every cell with its entities replaced. */
  function EscapeCells(cells: seq<string>): (e: seq<string>)
    ensures |e| == |cells|
  {
    seq(|cells|, k requires 0 <= k < |cells| => EscapeEntities(cells[k]))
  }

  /** Every row with its cells escaped. */
  function EscapeRows(rows: seq<seq<string>>): (e: seq<seq<string>>)
    ensures |e| == |rows|
  {
    seq(|rows|, r requires 0 <= r < |rows| => EscapeCells(rows[r]))
  }

  /** The generated table markup, with every cell escaped by the entity
      rule, is what the escaper makes of the table, and the escaper ends
      outside a tag so the text after the table is escaped as usual. */
  lemma TableSurvivesEscaper(header: seq<string>, body: seq<seq<string>>)
    requires NoOpenAngle(header)
    requires NoOpenAngleRows(body)
    ensures EscapeOutsideTags(TableHTML(header, body)) == TableHTML(EscapeCells(header), EscapeRows(body))
    ensures Final(Outside, TableHTML(header, body)) == Outside
  {
    TableEscapesTo(header, body);
  }

  /** The same, as the escaping relation. */
  lemma TableEscapesTo(header: seq<string>, body: seq<seq<string>>)
    requires NoOpenAngle(header)
    requires NoOpenAngleRows(body)
    ensures EscapesTo(TableHTML(header, body), TableHTML(EscapeCells(header), EscapeRows(body)))
  {
    HeaderEscape(header);
    RowsEscape(body);
    FramePieces();
    Frame(TableOpen, CellsHTML("th", header), CellsHTML("th", EscapeCells(header)), "</tr>\n</thead>\n<tbody>\n",
      RowsHTML(body), RowsHTML(EscapeRows(body)), TableClose);
  }

  /** The header cells between their `<th>` tags. */
  lemma HeaderEscape(header: seq<string>)
    requires NoOpenAngle(header)
    ensures EscapesTo(CellsHTML("th", header), CellsHTML("th", EscapeCells(header)))
  {
    CellsEscape("th", header);
  }

  /** Fixed pieces around two escaped parts. */
  lemma Frame(o: string, h: string, h': string, m: string, r: string, r': string, c: string)
    requires EscapesTo(o, o) && EscapesTo(h, h') && EscapesTo(m, m) && EscapesTo(r, r') && EscapesTo(c, c)
    ensures EscapesTo(o + h + m + r + c, o + h' + m + r' + c)
  {
    EscapesToAppend(o, o, h, h');
    EscapesToAppend(o + h, o + h', m, m);
    EscapesToAppend(o + h + m, o + h' + m, r, r');
    EscapesToAppend(o + h + m + r, o + h' + m + r', c, c);
  }

  /** The fixed parts of the table markup are tags and newlines only. */
  lemma FramePieces()
    ensures EscapesTo(TableOpen, TableOpen)
    ensures EscapesTo("</tr>\n</thead>\n<tbody>\n", "</tr>\n</thead>\n<tbody>\n")
    ensures EscapesTo(TableClose, TableClose)
  {
    TagLine("table");
    TagLine("thead");
    TagLine("/tr");
    TagLine("/thead");
    TagLine("tbody");
    TagLine("/tbody");
    TagEscapesTo("tr");
    TagEscapesTo("/table");
    Three(Tag("table") + "\n", Tag("thead") + "\n", Tag("tr"));
    OpenTags();
    Three(Tag("/tr") + "\n", Tag("/thead") + "\n", Tag("tbody") + "\n");
    MiddleTags();
    EscapesToAppend(Tag("/tbody") + "\n", Tag("/tbody") + "\n", Tag("/table"), Tag("/table"));
    CloseTags();
  }

  lemma OpenTags()
    ensures TableOpen == Tag("table") + "\n" + (Tag("thead") + "\n") + Tag("tr")
  {
    assert Tag("table") == "<table>";
    assert Tag("thead") == "<thead>";
    assert Tag("tr") == "<tr>";
  }

  lemma MiddleTags()
    ensures "</tr>\n</thead>\n<tbody>\n" == Tag("/tr") + "\n" + (Tag("/thead") + "\n") + (Tag("tbody") + "\n")
  {
    assert Tag("/tr") + "\n" == "</tr>\n";
    assert Tag("/thead") + "\n" == "</thead>\n";
    assert Tag("tbody") + "\n" == "<tbody>\n";
    assert "</tr>\n" + "</thead>\n" + "<tbody>\n" == "</tr>\n</thead>\n<tbody>\n";
  }

  lemma CloseTags()
    ensures TableClose == Tag("/tbody") + "\n" + Tag("/table")
  {
    assert Tag("/tbody") == "</tbody>";
    assert Tag("/table") == "</table>";
  }

  /** Three pieces that each pass unchanged pass unchanged together. */
  lemma Three(a: string, b: string, c: string)
    requires EscapesTo(a, a) && EscapesTo(b, b) && EscapesTo(c, c)
    ensures EscapesTo(a + b + c, a + b + c)
  {
    EscapesToAppend(a, a, b, b);
    EscapesToAppend(a + b, a + b, c, c);
  }

  /** A tag followed by a newline passes unchanged. */
  lemma TagLine(name: string)
    requires '>' !in name
    ensures EscapesTo(Tag(name) + "\n", Tag(name) + "\n")
  {
    TagEscapesTo(name);
    TextEscapesTo("\n");
    assert EscapeEntities("\n") == "\n";
    EscapesToAppend(Tag(name), Tag(name), "\n", "\n");
  }

  /** `<tag>` and `</tag>` around each cell pass unchanged; the cells are escaped. */
  lemma {:induction false} CellsEscape(tag: string, cells: seq<string>)
    requires '>' !in tag
    requires NoOpenAngle(cells)
    ensures EscapesTo(CellsHTML(tag, cells), CellsHTML(tag, EscapeCells(cells)))
    decreases |cells|
  {
    if |cells| == 0 {
      assert Final(Outside, "") == Outside;
    } else {
      var open, close := Tag(tag), Tag("/" + tag);
      var c, e := cells[0], EscapeEntities(cells[0]);
      var rest, rest' := CellsHTML(tag, cells[1..]), CellsHTML(tag, EscapeCells(cells[1..]));
      CellsEscape(tag, cells[1..]);
      assert EscapeCells(cells)[1..] == EscapeCells(cells[1..]);
      TagEscapesTo(tag);
      TagEscapesTo("/" + tag);
      TextEscapesTo(c);
      EscapesToAppend(open, open, c, e);
      EscapesToAppend(open + c, open + e, close, close);
      EscapesToAppend(open + c + close, open + e + close, rest, rest');
      CellShape(tag, c, rest);
      CellShape(tag, e, rest');
    }
  }

  /** The markup of one cell followed by more is its open tag, the cell, its close tag, the rest. */
  lemma CellShape(tag: string, c: string, rest: string)
    ensures "<" + tag + ">" + c + "</" + tag + ">" + rest == Tag(tag) + c + Tag("/" + tag) + rest
  {
    assert "</" + tag + ">" == Tag("/" + tag);
  }

  /** `<tr>` and `</tr>` around each row pass unchanged; the cells are escaped. */
  lemma {:induction false} RowsEscape(rows: seq<seq<string>>)
    requires NoOpenAngleRows(rows)
    ensures EscapesTo(RowsHTML(rows), RowsHTML(EscapeRows(rows)))
    decreases |rows|
  {
    if |rows| == 0 {
      assert Final(Outside, "") == Outside;
    } else {
      var open, close := Tag("tr"), Tag("/tr") + "\n";
      var cells, cells' := CellsHTML("td", rows[0]), CellsHTML("td", EscapeCells(rows[0]));
      var rest, rest' := RowsHTML(rows[1..]), RowsHTML(EscapeRows(rows[1..]));
      assert NoOpenAngleRows(rows[1..]) by {
        assert forall r :: 0 <= r < |rows[1..]| ==> rows[1..][r] == rows[r + 1];
      }
      RowsEscape(rows[1..]);
      assert EscapeRows(rows)[1..] == EscapeRows(rows[1..]);
      assert EscapeRows(rows)[0] == EscapeCells(rows[0]);
      TagEscapesTo("tr");
      TagLine("/tr");
      CellsEscape("td", rows[0]);
      EscapesToAppend(open, open, cells, cells');
      EscapesToAppend(open + cells, open + cells', close, close);
      EscapesToAppend(open + cells + close, open + cells' + close, rest, rest');
      assert RowsHTML(rows) == "<tr>" + cells + "</tr>\n" + rest;
      assert RowsHTML(EscapeRows(rows)) == "<tr>" + cells' + "</tr>\n" + rest';
      RowShape(cells, rest);
      RowShape(cells', rest');
    }
  }

  /** The markup of one row followed by more is `<tr>`, the cells, `</tr>` and a newline, the rest. */
  lemma RowShape(cells: string, rest: string)
    ensures "<tr>" + cells + "</tr>\n" + rest == Tag("tr") + cells + (Tag("/tr") + "\n") + rest
  {
    assert "<tr>" == Tag("tr");
    assert "</tr>\n" == Tag("/tr") + "\n";
  }
}
