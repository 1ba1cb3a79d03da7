/** The whole converter on a document that is one pipe table: the table pass
    turns the lines into table markup, the escaper keeps the generated tags
    and escapes the cells, and the paragraph pass keeps the table as one
    block-level block. */
module TableDocument {
  import opened Text
  import opened Escaper
  import opened Table
  import opened TablePass
  import opened TableMarkup
  import opened Paragraphs
  import opened Converter

  /** Cells that fit on one line of a document and open no tag. */
  predicate LineCells(cells: seq<string>) {
    && WellFormedCells(cells)
    && (forall k :: 0 <= k < |cells| ==> '\n' !in cells[k] && '<' !in cells[k])
  }

  predicate LineRows(rows: seq<seq<string>>) {
    forall r :: 0 <= r < |rows| ==> LineCells(rows[r])
  }

  /** A separator line that the table pass recognises. */
  predicate LineSeparator(separator: string) {
    '\n' !in separator && IsSeparator(Trim(separator, Whitespaces))
  }

  /** A document made of one written table — a header row, a separator line
      and body rows — becomes exactly the table markup of its cells, with
      the entities of every cell escaped and nothing around it, when the
      rewrites leave that markup alone. */
  lemma TableDocumentRendered(header: seq<string>, separator: string, body: seq<seq<string>>, rewrite: string -> string)
    requires LineCells(header) && LineSeparator(separator) && LineRows(body)
    requires rewrite(TableHTML(EscapeCells(header), EscapeRows(body))) == TableHTML(EscapeCells(header), EscapeRows(body))
    ensures ToHTML(Join(WrittenTable(header, separator, body), "\n"), rewrite)
         == TableHTML(EscapeCells(header), EscapeRows(body))
  {
    var doc := Join(WrittenTable(header, separator, body), "\n");
    calc {
      ToHTML(doc, rewrite);
    == { DocumentTables(header, separator, body, rewrite); }
      AssembleParagraphs(rewrite(EscapeOutsideTags(TableHTML(header, body))));
    == { DocumentEscaped(header, body, rewrite); }
      AssembleParagraphs(rewrite(TableHTML(EscapeCells(header), EscapeRows(body))));
    ==
      AssembleParagraphs(TableHTML(EscapeCells(header), EscapeRows(body)));
    == { EscapedOneLine(header, body); TableIsBlock(EscapeCells(header), EscapeRows(body)); }
      TableHTML(EscapeCells(header), EscapeRows(body));
    }
  }

  /** The first stage: the table pass. */
  lemma DocumentTables(header: seq<string>, separator: string, body: seq<seq<string>>, rewrite: string -> string)
    requires LineCells(header) && LineSeparator(separator) && LineRows(body)
    ensures ToHTML(Join(WrittenTable(header, separator, body), "\n"), rewrite)
         == AssembleParagraphs(rewrite(EscapeOutsideTags(TableHTML(header, body))))
  {
    WrittenTableExtracted(header, separator, body);
  }

  /** The second stage: the escaper. */
  lemma DocumentEscaped(header: seq<string>, body: seq<seq<string>>, rewrite: string -> string)
    requires LineCells(header) && LineRows(body)
    ensures AssembleParagraphs(rewrite(EscapeOutsideTags(TableHTML(header, body))))
         == AssembleParagraphs(rewrite(TableHTML(EscapeCells(header), EscapeRows(body))))
  {
    assert NoOpenAngleRows(body) by {
      forall r | 0 <= r < |body|
        ensures NoOpenAngle(body[r])
      {
        assert LineCells(body[r]);
      }
    }
    TableSurvivesEscaper(header, body);
  }

  /** The table pass replaces a written table by its markup. */
  lemma WrittenTableExtracted(header: seq<string>, separator: string, body: seq<seq<string>>)
    requires LineCells(header) && LineSeparator(separator) && LineRows(body)
    ensures ExtractTables(Join(WrittenTable(header, separator, body), "\n")) == TableHTML(header, body)
  {
    var lines := WrittenTable(header, separator, body);
    WrittenLinesOneLine(header, separator, body);
    SplitJoin(lines, '\n');
    assert "\n" == ['\n'];
    WrittenTableScanned(header, separator, body);
    assert Join([TableHTML(header, body)], "\n") == TableHTML(header, body);
  }

  /** No line of a written table holds a newline. */
  lemma WrittenLinesOneLine(header: seq<string>, separator: string, body: seq<seq<string>>)
    requires LineCells(header) && LineSeparator(separator) && LineRows(body)
    ensures forall k :: 0 <= k < |WrittenTable(header, separator, body)| ==> '\n' !in WrittenTable(header, separator, body)[k]
  {
    var lines := WrittenTable(header, separator, body);
    RowLineOneLine(header);
    forall k | 2 <= k < |lines|
      ensures '\n' !in lines[k]
    {
      assert LineCells(body[k - 2]);
      RowLineOneLine(body[k - 2]);
    }
  }

  /** A written row holds no newline. */
  lemma RowLineOneLine(cells: seq<string>)
    requires LineCells(cells)
    ensures '\n' !in RowLine(cells)
  {
    var parts := [""] + Padded(cells) + [""];
    assert forall k :: 0 <= k < |parts| ==> '\n' !in parts[k];
    JoinAvoids(parts, "|", '\n');
  }

  /** The scan of the lines of a written table finds one table spanning all of them. */
  lemma WrittenTableScanned(header: seq<string>, separator: string, body: seq<seq<string>>)
    requires LineCells(header) && LineSeparator(separator) && LineRows(body)
    ensures ProcessLines(WrittenTable(header, separator, body)) == [TableHTML(header, body)]
  {
    var lines := WrittenTable(header, separator, body);
    WrittenTableStarts(header, separator, body);
    WrittenBodyRun(header, separator, body);
    assert lines[0..] == lines && lines[|lines|..] == [] && lines[0..|lines|] == lines;
    TableStep(lines, 0, |lines|);
    assert ProcessLines([]) == [];
    WrittenTableTrimmed(header, separator, body);
    SeparatorIgnored(lines, Trim(separator, Whitespaces));
    ConvertWrittenTable(header, separator, body);
  }

  /** A table starts at the first line of a written table. */
  lemma WrittenTableStarts(header: seq<string>, separator: string, body: seq<seq<string>>)
    requires LineCells(header) && LineSeparator(separator) && LineRows(body)
    ensures TableAt(ClassifyAll(WrittenTable(header, separator, body)), 0)
  {
    var lines := WrittenTable(header, separator, body);
    ClassifyAt(lines, 0);
    ClassifyAt(lines, 1);
    RowLineTrimmed(header);
  }

  /** Every line after the separator is a body row, so the run takes them all. */
  lemma WrittenBodyRun(header: seq<string>, separator: string, body: seq<seq<string>>)
    requires LineCells(header) && LineSeparator(separator) && LineRows(body)
    ensures BodyRun(ClassifyAll(WrittenTable(header, separator, body)[2..])) == |body|
  {
    var rest := WrittenTable(header, separator, body)[2..];
    var ls := ClassifyAll(rest);
    forall k | 0 <= k < |ls|
      ensures ls[k].isBodyRow
    {
      ClassifyAt(rest, k);
      assert LineCells(body[k]);
      RowLineTrimmed(body[k]);
    }
    FullRun(ls);
  }

  /** A run of body rows to the end is the whole sequence. */
  lemma {:induction false} FullRun(ls: seq<Line>)
    requires forall k :: 0 <= k < |ls| ==> ls[k].isBodyRow
    ensures BodyRun(ls) == |ls|
    decreases |ls|
  {
    if |ls| > 0 {
      FullRun(ls[1..]);
    }
  }

  /** Trimming the lines of a written table changes at most the separator. */
  lemma WrittenTableTrimmed(header: seq<string>, separator: string, body: seq<seq<string>>)
    requires LineCells(header) && LineRows(body)
    ensures var lines := WrittenTable(header, separator, body);
      TrimLines(lines) == lines[1 := Trim(separator, Whitespaces)]
  {
    var lines := WrittenTable(header, separator, body);
    var want := lines[1 := Trim(separator, Whitespaces)];
    forall k | 0 <= k < |lines|
      ensures TrimLines(lines)[k] == want[k]
    {
      TrimmedLine(header, separator, body, k);
    }
  }

  /** Line `k` of a written table, trimmed. */
  lemma TrimmedLine(header: seq<string>, separator: string, body: seq<seq<string>>, k: nat)
    requires LineCells(header) && LineRows(body)
    requires k < |body| + 2
    ensures Trim(WrittenTable(header, separator, body)[k], Whitespaces)
         == WrittenTable(header, separator, body)[1 := Trim(separator, Whitespaces)][k]
  {
    var lines := WrittenTable(header, separator, body);
    if k == 0 {
      RowLineTrimmed(header);
    } else if k >= 2 {
      assert lines[k] == RowLine(body[k - 2]);
      assert LineCells(body[k - 2]);
      RowLineTrimmed(body[k - 2]);
    }
  }

  /** A written row is already trimmed, and it is not empty and holds a `|`. */
  lemma RowLineTrimmed(cells: seq<string>)
    requires WellFormedCells(cells)
    ensures Trim(RowLine(cells), Whitespaces) == RowLine(cells)
    ensures '|' in RowLine(cells)
  {
    var line := RowLine(cells);
    RowLineEnds(cells);
    TrimAround("", line, "", Whitespaces);
    assert "" + line + "" == line;
  }

  /** A written row starts and ends with `|`. */
  lemma RowLineEnds(cells: seq<string>)
    requires |cells| >= 1
    ensures |RowLine(cells)| >= 2
    ensures RowLine(cells)[0] == '|' && RowLine(cells)[|RowLine(cells)| - 1] == '|'
  {
    var inner := Padded(cells);
    var tail := inner + [""];
    assert [""] + inner + [""] == [""] + tail;
    JoinLastEmpty(inner, "|");
    assert Join([""] + tail, "|") == "" + "|" + Join(tail, "|") by {
      assert ([""] + tail)[1..] == tail;
    }
  }

  /** Joining with an empty last piece ends the join with the separator. */
  lemma {:induction false} JoinLastEmpty(xs: seq<string>, sep: string)
    requires |xs| >= 1
    ensures Join(xs + [""], sep) == Join(xs, sep) + sep
    decreases |xs|
  {
    if |xs| == 1 {
      assert Join(xs + [""], sep) == xs[0] + sep + Join([""], sep);
    } else {
      assert (xs + [""])[1..] == xs[1..] + [""];
      JoinLastEmpty(xs[1..], sep);
    }
  }

  /** Cells on one line. */
  predicate OneLineCells(cells: seq<string>) {
    forall k :: 0 <= k < |cells| ==> '\n' !in cells[k]
  }

  predicate OneLineRows(rows: seq<seq<string>>) {
    forall r :: 0 <= r < |rows| ==> OneLineCells(rows[r])
  }

  /** Escaping keeps the cells on one line. */
  lemma EscapedOneLine(header: seq<string>, body: seq<seq<string>>)
    requires LineCells(header) && LineRows(body)
    ensures OneLineCells(EscapeCells(header)) && OneLineRows(EscapeRows(body))
  {
    forall k | 0 <= k < |header|
      ensures '\n' !in EscapeCells(header)[k]
    {
      EntitiesOneLine(header[k]);
    }
    forall r, k | 0 <= r < |body| && 0 <= k < |EscapeRows(body)[r]|
      ensures '\n' !in EscapeRows(body)[r][k]
    {
      assert LineCells(body[r]);
      EntitiesOneLine(body[r][k]);
    }
  }

  /** The entity rule introduces no newline. */
  lemma {:induction false} EntitiesOneLine(s: string)
    requires '\n' !in s
    ensures '\n' !in EscapeEntities(s)
    decreases |s|
  {
    if |s| > 0 {
      assert s[0] in s;
      assert '\n' !in s[1..] by {
        assert forall i :: 0 <= i < |s[1..]| ==> s[1..][i] == s[i + 1];
      }
      EntitiesOneLine(s[1..]);
      assert '\n' !in Entity(s[0]);
      assert EscapeEntities(s) == Entity(s[0]) + EscapeEntities(s[1..]);
    }
  }

  /** Table markup over one-line cells is one block-level block for the
      paragraph pass, and it passes through unchanged. */
  lemma TableIsBlock(header: seq<string>, body: seq<seq<string>>)
    requires OneLineCells(header) && OneLineRows(body)
    ensures AssembleParagraphs(TableHTML(header, body)) == TableHTML(header, body)
  {
    var t := TableHTML(header, body);
    TableTight(header, body);
    NoDoubleNoPair(t, '\n');
    assert "\n\n" == ['\n', '\n'];
    assert Separable([t]);
    OneBlockRendered(t);
    TableEnds(header, body);
    BlockPassesThrough("", t, "");
    Unpadded(t);
  }

  /** Table markup starts with `<table`, which is block-level, and ends with `>`. */
  lemma TableEnds(header: seq<string>, body: seq<seq<string>>)
    ensures var t := TableHTML(header, body);
      t != [] && t[0] == '<' && t[|t| - 1] == '>' && IsBlockLevel(t)
  {
    var t := TableHTML(header, body);
    TableFrame(header, body);
    assert TableOpen[..6] == "<table";
    assert t[..6] == t[..|TableOpen|][..6];
    assert t[0] == TableOpen[0];
    assert t[|t| - 1] == TableClose[|TableClose| - 1];
  }

  /** No blank line and no newline at the start. */
  predicate Tight(s: string) {
    NoPair(s, '\n') && (s != [] ==> s[0] != '\n')
  }

  /** Tight pieces make a tight whole: the second does not start with a newline. */
  lemma TightAppend(a: string, b: string)
    requires Tight(a) && Tight(b)
    ensures Tight(a + b)
  {
    var s := a + b;
    forall i | 0 <= i < |s| - 1
      ensures !(s[i] == '\n' && s[i + 1] == '\n')
    {
      if i + 1 < |a| {
        assert s[i] == a[i] && s[i + 1] == a[i + 1];
      } else if i + 1 == |a| {
        assert s[i + 1] == b[0];
      } else {
        assert s[i] == b[i - |a|] && s[i + 1] == b[i + 1 - |a|];
      }
    }
    if a == [] {
      assert s == b;
    } else {
      assert s[0] == a[0];
    }
  }

  /** Text without a newline is tight. */
  lemma OneLineTight(s: string)
    requires '\n' !in s
    ensures Tight(s)
  {
    if s != [] {
      assert s[0] in s;
    }
    forall i | 0 <= i < |s| - 1
      ensures s[i] != '\n'
    {
      assert s[i] in s;
    }
  }

  /** A non-empty line followed by its newline is tight. */
  lemma LineTight(x: string)
    requires '\n' !in x && x != []
    ensures Tight(x + "\n")
  {
    var s := x + "\n";
    assert s[0] == x[0] && x[0] in x;
    forall i | 0 <= i < |s| - 1
      ensures s[i] != '\n'
    {
      assert s[i] == x[i] && x[i] in x;
    }
  }

  /** A tag on a line of its own is tight. */
  lemma TagLineTight(name: string)
    requires '\n' !in name
    ensures Tight(Tag(name) + "\n")
  {
    assert '\n' !in Tag(name);
    LineTight(Tag(name));
  }

  /** A tag is tight. */
  lemma TagTight(name: string)
    requires '\n' !in name
    ensures Tight(Tag(name))
  {
    assert '\n' !in Tag(name);
    OneLineTight(Tag(name));
  }

  /** Three tight pieces make a tight whole. */
  lemma TightThree(a: string, b: string, c: string)
    requires Tight(a) && Tight(b) && Tight(c)
    ensures Tight(a + b + c)
  {
    TightAppend(a, b);
    TightAppend(a + b, c);
  }

  /** The fixed parts of the table markup are tight. */
  lemma FrameTight()
    ensures Tight(TableOpen)
    ensures Tight("</tr>\n</thead>\n<tbody>\n")
    ensures Tight(TableClose)
  {
    OpenTight();
    MiddleTight();
    CloseTight();
  }

  lemma OpenTight()
    ensures Tight(TableOpen)
  {
    TagLineTight("table");
    TagLineTight("thead");
    TagTight("tr");
    TightThree(Tag("table") + "\n", Tag("thead") + "\n", Tag("tr"));
    OpenTags();
  }

  lemma MiddleTight()
    ensures Tight("</tr>\n</thead>\n<tbody>\n")
  {
    TagLineTight("/tr");
    TagLineTight("/thead");
    TagLineTight("tbody");
    TightThree(Tag("/tr") + "\n", Tag("/thead") + "\n", Tag("tbody") + "\n");
    MiddleTags();
  }

  lemma CloseTight()
    ensures Tight(TableClose)
  {
    TagLineTight("/tbody");
    TagTight("/table");
    TightAppend(Tag("/tbody") + "\n", Tag("/table"));
    CloseTags();
  }

  /** The cells of a row with their tags hold no newline. */
  lemma {:induction false} CellsOneLine(tag: string, cells: seq<string>)
    requires '\n' !in tag
    requires OneLineCells(cells)
    ensures '\n' !in CellsHTML(tag, cells)
    decreases |cells|
  {
    if |cells| > 0 {
      assert OneLineCells(cells[1..]) by {
        assert forall k :: 0 <= k < |cells[1..]| ==> cells[1..][k] == cells[k + 1];
      }
      CellsOneLine(tag, cells[1..]);
      assert '\n' !in cells[0];
      assert CellsHTML(tag, cells) == "<" + tag + ">" + cells[0] + "</" + tag + ">" + CellsHTML(tag, cells[1..]);
    }
  }

  /** The body rows of the markup are tight. */
  lemma {:induction false} RowsTight(rows: seq<seq<string>>)
    requires OneLineRows(rows)
    ensures Tight(RowsHTML(rows))
    decreases |rows|
  {
    if |rows| > 0 {
      var line := "<tr>" + CellsHTML("td", rows[0]) + "</tr>";
      assert OneLineCells(rows[0]);
      CellsOneLine("td", rows[0]);
      assert '\n' !in line;
      LineTight(line);
      assert OneLineRows(rows[1..]) by {
        assert forall r :: 0 <= r < |rows[1..]| ==> rows[1..][r] == rows[r + 1];
      }
      RowsTight(rows[1..]);
      TightAppend(line + "\n", RowsHTML(rows[1..]));
      assert RowsHTML(rows) == line + "\n" + RowsHTML(rows[1..]);
    } else {
      assert RowsHTML(rows) == "";
    }
  }

  /** Table markup over one-line cells is tight. */
  lemma TableTight(header: seq<string>, body: seq<seq<string>>)
    requires OneLineCells(header) && OneLineRows(body)
    ensures Tight(TableHTML(header, body))
  {
    CellsOneLine("th", header);
    OneLineTight(CellsHTML("th", header));
    RowsTight(body);
    FrameTight();
    TightFrame(TableOpen, CellsHTML("th", header), "</tr>\n</thead>\n<tbody>\n", RowsHTML(body), TableClose);
  }

  /** Five tight pieces make a tight whole. */
  lemma TightFrame(o: string, h: string, m: string, r: string, c: string)
    requires Tight(o) && Tight(h) && Tight(m) && Tight(r) && Tight(c)
    ensures Tight(o + h + m + r + c)
  {
    TightAppend(o, h);
    TightAppend(o + h, m);
    TightAppend(o + h + m, r);
    TightAppend(o + h + m + r, c);
  }
}
