/** `processTables`: a scanner over the lines of the document that finds pipe
    tables — a header line, a separator line and the run of body lines after
    them — and replaces each table by a single line of table HTML. */
module TablePass {
  import opened Text
  import opened Table

  /** The separator test as `processTables` writes it: the trimmed line contains
      `|` and `-`, and deleting every `|`, `-`, `:` and space leaves nothing. */
  predicate SeparatorByReplace(t: string) {
    && '|' in t
    && '-' in t
    && Replace(Replace(Replace(Replace(t, '|', ""), '-', ""), ':', ""), ' ', "") == ""
  }

  /** A separator line: it contains `|` and `-` and is made of `|`, `-`, `:`
      and spaces only. */
  predicate IsSeparator(t: string) {
    '|' in t && '-' in t && forall i :: 0 <= i < |t| ==> t[i] in "|-: "
  }

  /** `processTables`'s chain of replacements accepts exactly the separator lines. */
  lemma SeparatorChars(t: string)
    ensures SeparatorByReplace(t) <==> IsSeparator(t)
  {
    var r1 := Replace(t, '|', "");
    var r2 := Replace(r1, '-', "");
    var r3 := Replace(r2, ':', "");
    var r := Replace(r3, ' ', "");
    RemoveChar(t, '|');
    RemoveChar(r1, '-');
    RemoveChar(r2, ':');
    RemoveChar(r3, ' ');
    assert forall x :: x in r <==> x in t && x != '|' && x != '-' && x != ':' && x != ' ';
    if r != [] {
      assert r[0] in r;
      var i :| 0 <= i < |t| && t[i] == r[0];
      assert t[i] !in "|-: ";
    } else {
      forall i | 0 <= i < |t|
        ensures t[i] in "|-: "
      {
        assert t[i] !in r;
      }
    }
  }

  /** What the scan asks of a line: its text, and the three tests it applies
      to the text trimmed of spaces and tabs — it contains `|` (a header may
      start here), it is a separator, and it is a body row (contains `|` and
      is not empty). */
  datatype Line = Line(text: string, hasPipe: bool, isSeparator: bool, isBodyRow: bool)

  /** The tests of one line, on its text trimmed of spaces and tabs. */
  function Classify(line: string): (l: Line)
    ensures l.text == line
  {
    var t := Trim(line, Whitespaces);
    Line(line, '|' in t, IsSeparator(t), '|' in t && t != [])
  }

  /** The tests of every line. */
  function ClassifyAll(lines: seq<string>): (ls: seq<Line>)
    ensures |ls| == |lines|
    decreases |lines|
  {
    if |lines| == 0 then [] else [Classify(lines[0])] + ClassifyAll(lines[1..])
  }

  /** Entry `k` of the classification holds the tests of line `k`. */
  lemma {:induction false} ClassifyAt(lines: seq<string>, k: nat)
    requires k < |lines|
    ensures ClassifyAll(lines)[k] == Classify(lines[k])
    decreases k
  {
    if k > 0 {
      ClassifyAt(lines[1..], k - 1);
    }
  }

  /** The text of every line. */
  function Texts(ls: seq<Line>): (lines: seq<string>)
    ensures |lines| == |ls|
  {
    seq(|ls|, k requires 0 <= k < |ls| => ls[k].text)
  }

  /** Every line trimmed of spaces and tabs. */
  function TrimLines(lines: seq<string>): (t: seq<string>)
    ensures |t| == |lines|
  {
    seq(|lines|, k requires 0 <= k < |lines| => Trim(lines[k], Whitespaces))
  }

  /** A table starts at line `i`: a next line exists, line `i` contains `|`
      and the next line is a separator. */
  predicate TableAt(ls: seq<Line>, i: nat) {
    i + 1 < |ls| && ls[i].hasPipe && ls[i + 1].isSeparator
  }

  /** The number of body rows at the start of `ls`: the greedy run. */
  function BodyRun(ls: seq<Line>): (n: nat)
    ensures n <= |ls|
    ensures n < |ls| ==> !ls[n].isBodyRow
    decreases |ls|
  {
    if |ls| == 0 || !ls[0].isBodyRow then 0 else 1 + BodyRun(ls[1..])
  }

  /** Every line of the run is a body row. */
  lemma {:induction false} BodyRunRows(ls: seq<Line>)
    ensures forall k :: 0 <= k < BodyRun(ls) ==> ls[k].isBodyRow
    decreases |ls|
  {
    if |ls| > 0 && ls[0].isBodyRow {
      BodyRunRows(ls[1..]);
      assert forall k :: 1 <= k < BodyRun(ls) ==> ls[k] == ls[1..][k - 1];
    }
  }

  /** The number of lines a table starting at the first line takes: the
      header, the separator and the greedy run of body rows. */
  function TableSpan(ls: seq<Line>): (n: nat)
    requires |ls| >= 2
    ensures 2 <= n <= |ls|
  {
    2 + BodyRun(ls[2..])
  }

  /** What the scan makes of the lines: a line kept as it is, or the lines
      of one table, replaced by that table's HTML. */
  datatype Piece = Kept(line: string) | Block(rows: seq<string>)

  /** Reference definition of the scan: at a table start, the header, the
      separator and the greedy run of body rows form one block and the scan
      resumes after them; any other line is kept. */
  function Scan(ls: seq<Line>): (ps: seq<Piece>)
    ensures |ps| <= |ls|
    decreases |ls|
  {
    if |ls| == 0 then []
    else if TableAt(ls, 0) then [Block(Texts(ls[..TableSpan(ls)]))] + Scan(ls[TableSpan(ls)..])
    else [Kept(ls[0].text)] + Scan(ls[1..])
  }

  /** The output line of one piece: a kept line as it is, a block as the
      table HTML of its lines, each trimmed. */
  function RenderPiece(p: Piece): string {
    match p
    case Kept(line) => line
    case Block(rows) => ConvertTable(TrimLines(rows))
  }

  /** The output line of every piece, in order. */
  function Render(ps: seq<Piece>): (out: seq<string>)
    ensures |out| == |ps|
  {
    seq(|ps|, k requires 0 <= k < |ps| => RenderPiece(ps[k]))
  }

  /** Every line kept. */
  function KeptAll(lines: seq<string>): (ps: seq<Piece>)
    ensures |ps| == |lines|
  {
    seq(|lines|, k requires 0 <= k < |lines| => Kept(lines[k]))
  }

  /** The scan of the lines followed by rendering. */
  function ProcessLines(lines: seq<string>): (out: seq<string>)
    ensures |out| <= |lines|
  {
    Render(Scan(ClassifyAll(lines)))
  }

  /** `processTables` on the whole document: split into lines, scan, join. */
  function ExtractTables(markdown: string): string {
    Join(ProcessLines(SplitOn(markdown, "\n")), "\n")
  }

  /** None of the lines starts a table. */
  predicate NoTables(ls: seq<Line>) {
    forall k: nat :: k < |ls| ==> !TableAt(ls, k)
  }

  /** Rendering distributes over concatenation. */
  lemma RenderAppend(a: seq<Piece>, b: seq<Piece>)
    ensures Render(a + b) == Render(a) + Render(b)
  {
  }

  /** Rendering kept lines gives the lines back. */
  lemma RenderKept(lines: seq<string>)
    ensures Render(KeptAll(lines)) == lines
  {
  }

  /** `processTables`'s loop: a cursor `i` over a line array that shrinks
      each time a table is replaced. It computes the reference scan, and it
      returns the document unchanged when no line starts a table. */
  method ProcessTables(markdown: string) returns (result: string)
    ensures result == ExtractTables(markdown)
    ensures NoTables(ClassifyAll(SplitOn(markdown, "\n"))) ==> result == markdown
  {
    var lines := SplitOn(markdown, "\n");
    ghost var input := lines;
    var i := 0;
    while i < |lines|
      invariant i <= |lines|
      invariant lines[..i] + ProcessLines(lines[i..]) == ProcessLines(input)
      decreases |lines| - i
    {
      TableTest(lines, i);
      var line := Trim(lines[i], Whitespaces);
      if '|' in line && i + 1 < |lines| {
        var nextLine := Trim(lines[i + 1], Whitespaces);
        var isSeparator := '|' in nextLine && '-' in nextLine &&
          Replace(Replace(Replace(Replace(nextLine, '|', ""), '-', ""), ':', ""), ' ', "") == "";
        SeparatorChars(nextLine);
        if isSeparator {
          var tableLines, j := CollectTable(lines, i);
          var tableHTML := ConvertTable(tableLines);
          TableStep(lines, i, j);
          Advance(lines[..i], tableHTML, ProcessLines(lines[j..]), ProcessLines(input));
          assert (lines[..i] + [tableHTML] + lines[j..])[..i + 1] == lines[..i] + [tableHTML];
          assert (lines[..i] + [tableHTML] + lines[j..])[i + 1..] == lines[j..];
          lines := lines[..i] + [tableHTML] + lines[j..];
          i := i + 1;
          continue;
        }
      }
      KeepStep(lines, i);
      Advance(lines[..i], lines[i], ProcessLines(lines[i + 1..]), ProcessLines(input));
      assert lines[..i + 1] == lines[..i] + [lines[i]];
      i := i + 1;
    }
    assert lines[..i] == lines && lines[i..] == [];
    assert ProcessLines([]) == [];
    assert lines == ProcessLines(input) by {
      assert lines + [] == lines;
    }
    result := Join(lines, "\n");
    if NoTables(ClassifyAll(input)) {
      NoTablesUnchanged(input);
      JoinSplit(markdown, "\n");
    }
  }

  /** The inner loop of the scan: from a table start at `i`, collect the
      header, the separator and the following body rows, each trimmed, and
      stop at the first line that is not a body row. */
  method CollectTable(lines: seq<string>, i: nat) returns (tableLines: seq<string>, j: nat)
    requires i + 2 <= |lines|
    ensures i + 2 <= j <= |lines|
    ensures j - (i + 2) == BodyRun(ClassifyAll(lines[i + 2..]))
    ensures tableLines == TrimLines(lines[i..j])
  {
    tableLines := [Trim(lines[i], Whitespaces), Trim(lines[i + 1], Whitespaces)];
    j := i + 2;
    FirstTwoRows(lines, i);
    while j < |lines|
      invariant i + 2 <= j <= |lines|
      invariant tableLines == TrimLines(lines[i..j])
      invariant BodyRun(ClassifyAll(lines[i + 2..])) == (j - (i + 2)) + BodyRun(ClassifyAll(lines[j..]))
      decreases |lines| - j
    {
      var rowLine := Trim(lines[j], Whitespaces);
      assert Classify(lines[j]).isBodyRow <==> '|' in rowLine && rowLine != [];
      ClassifyCons(lines, j);
      if '|' in rowLine && rowLine != [] {
        NextRow(lines, i, j);
        tableLines := tableLines + [rowLine];
        j := j + 1;
      } else {
        break;
      }
    }
  }

  /** The header and the separator, trimmed, open the table's lines. */
  lemma FirstTwoRows(lines: seq<string>, i: nat)
    requires i + 2 <= |lines|
    ensures TrimLines(lines[i..i + 2]) == [Trim(lines[i], Whitespaces), Trim(lines[i + 1], Whitespaces)]
  {
    assert lines[i..i + 2] == [lines[i], lines[i + 1]];
  }

  /** A body row extends the table by its trimmed text. */
  lemma NextRow(lines: seq<string>, i: nat, j: nat)
    requires i <= j < |lines|
    ensures TrimLines(lines[i..j + 1]) == TrimLines(lines[i..j]) + [Trim(lines[j], Whitespaces)]
  {
    assert lines[i..j + 1] == lines[i..j] + [lines[j]];
  }

  /** The classification of the lines from `j` starts with the tests of line `j`. */
  lemma ClassifyCons(lines: seq<string>, j: nat)
    requires j < |lines|
    ensures ClassifyAll(lines[j..]) == [Classify(lines[j])] + ClassifyAll(lines[j + 1..])
  {
    assert lines[j..][0] == lines[j] && lines[j..][1..] == lines[j + 1..];
  }

  /** Classifying the lines after the first `n` is dropping the first `n` tests. */
  lemma {:induction false} ClassifyDrop(lines: seq<string>, n: nat)
    requires n <= |lines|
    ensures ClassifyAll(lines)[n..] == ClassifyAll(lines[n..])
    decreases n
  {
    if n > 0 {
      ClassifyDrop(lines[1..], n - 1);
      assert lines[1..][n - 1..] == lines[n..];
    }
  }

  /** Classifying the first `n` lines is taking the first `n` tests. */
  lemma {:induction false} ClassifyTake(lines: seq<string>, n: nat)
    requires n <= |lines|
    ensures ClassifyAll(lines)[..n] == ClassifyAll(lines[..n])
    decreases n
  {
    if n > 0 {
      ClassifyTake(lines[1..], n - 1);
      assert lines[..n][1..] == lines[1..][..n - 1];
      assert lines[..n][0] == lines[0];
    }
  }

  /** The texts of the classification are the lines. */
  lemma {:induction false} ClassifyTexts(lines: seq<string>)
    ensures Texts(ClassifyAll(lines)) == lines
    decreases |lines|
  {
    if |lines| > 0 {
      ClassifyTexts(lines[1..]);
      assert Texts(ClassifyAll(lines))[1..] == Texts(ClassifyAll(lines[1..]));
    }
  }

  /** The loop's table test at line `i` is the scan's table test on the lines from `i`. */
  lemma TableTest(lines: seq<string>, i: nat)
    requires i < |lines|
    ensures TableAt(ClassifyAll(lines[i..]), 0) <==>
      '|' in Trim(lines[i], Whitespaces) && i + 1 < |lines| && IsSeparator(Trim(lines[i + 1], Whitespaces))
  {
    ClassifyCons(lines, i);
    if i + 1 < |lines| {
      ClassifyCons(lines, i + 1);
    }
  }

  /** A table at line `i` whose body run ends at `j` becomes one line of
      table HTML, and the scan goes on from `j`. */
  lemma TableStep(lines: seq<string>, i: nat, j: nat)
    requires i + 2 <= j <= |lines|
    requires TableAt(ClassifyAll(lines[i..]), 0)
    requires j - (i + 2) == BodyRun(ClassifyAll(lines[i + 2..]))
    ensures ProcessLines(lines[i..]) == [ConvertTable(TrimLines(lines[i..j]))] + ProcessLines(lines[j..])
  {
    TableStepScan(lines, i, j);
    RenderAppend([Block(lines[i..j])], Scan(ClassifyAll(lines[j..])));
    RenderTableBlock(lines[i..j]);
  }

  /** The same on the scan: the lines `i` to `j` form one block. */
  lemma TableStepScan(lines: seq<string>, i: nat, j: nat)
    requires i + 2 <= j <= |lines|
    requires TableAt(ClassifyAll(lines[i..]), 0)
    requires j - (i + 2) == BodyRun(ClassifyAll(lines[i + 2..]))
    ensures Scan(ClassifyAll(lines[i..])) == [Block(lines[i..j])] + Scan(ClassifyAll(lines[j..]))
  {
    var rest := lines[i..];
    var n := j - i;
    assert rest[2..] == lines[i + 2..] && rest[n..] == lines[j..] && rest[..n] == lines[i..j];
    ClassifyDrop(rest, 2);
    ClassifySplit(rest, n);
    ScanHead(ClassifyAll(rest), n);
  }

  /** Cutting the classification at `n`: the tests after `n` are those of the
      lines after `n`, and the texts before `n` are the lines before `n`. */
  lemma ClassifySplit(lines: seq<string>, n: nat)
    requires n <= |lines|
    ensures ClassifyAll(lines)[n..] == ClassifyAll(lines[n..])
    ensures Texts(ClassifyAll(lines)[..n]) == lines[..n]
  {
    ClassifyDrop(lines, n);
    ClassifyTake(lines, n);
    ClassifyTexts(lines[..n]);
  }

  /** A table at the first line whose body run ends at `n` is the scan's first block. */
  lemma ScanHead(ls: seq<Line>, n: nat)
    requires TableAt(ls, 0)
    requires 2 <= n <= |ls|
    requires n - 2 == BodyRun(ls[2..])
    ensures Scan(ls) == [Block(Texts(ls[..n]))] + Scan(ls[n..])
  {
    assert TableSpan(ls) == n;
  }

  /** A block renders as the one line of its table HTML. */
  lemma RenderTableBlock(rows: seq<string>)
    ensures Render([Block(rows)]) == [ConvertTable(TrimLines(rows))]
  {
  }

  /** A line that starts no table is kept, and the scan goes on from the next line. */
  lemma KeepStep(lines: seq<string>, i: nat)
    requires i < |lines|
    requires !TableAt(ClassifyAll(lines[i..]), 0)
    ensures ProcessLines(lines[i..]) == [lines[i]] + ProcessLines(lines[i + 1..])
  {
    KeepStepScan(lines, i);
    RenderAppend([Kept(lines[i])], Scan(ClassifyAll(lines[i + 1..])));
  }

  /** The same on the scan: line `i` is kept. */
  lemma KeepStepScan(lines: seq<string>, i: nat)
    requires i < |lines|
    requires !TableAt(ClassifyAll(lines[i..]), 0)
    ensures Scan(ClassifyAll(lines[i..])) == [Kept(lines[i])] + Scan(ClassifyAll(lines[i + 1..]))
  {
    ClassifyCons(lines, i);
    var ls := ClassifyAll(lines[i..]);
    assert ls[1..] == ClassifyAll(lines[i + 1..]);
  }

  /** Outputting the first line of the rest moves it to the finished lines. */
  lemma Advance(done: seq<string>, line: string, rest: seq<string>, all: seq<string>)
    requires done + ([line] + rest) == all
    ensures (done + [line]) + rest == all
  {
    AppendAssoc(done, [line], rest);
  }

  /** A table at `i` whose body run ends at `j` is one block of the scan from `i`. */
  lemma ScanStep(ls: seq<Line>, i: nat, j: nat)
    requires TableAt(ls, i)
    requires i + 2 <= j <= |ls|
    requires j - (i + 2) == BodyRun(ls[i + 2..])
    ensures Scan(ls[i..]) == [Block(Texts(ls[i..j]))] + Scan(ls[j..])
  {
    var rest := ls[i..];
    assert rest[2..] == ls[i + 2..];
    assert TableSpan(rest) == j - i;
    assert rest[0] == ls[i] && rest[1] == ls[i + 1];
    assert TableAt(rest, 0);
    assert rest[..j - i] == ls[i..j];
    assert rest[j - i..] == ls[j..];
  }

  /** The lines after the first start a table exactly where the whole does, one later. */
  lemma TableAtTail(ls: seq<Line>, k: nat)
    requires |ls| > 0
    ensures TableAt(ls[1..], k) <==> TableAt(ls, k + 1)
  {
  }

  /** A table anywhere makes the scan shorter than its input. */
  lemma {:induction false} TableShrinks(ls: seq<Line>, k: nat)
    requires TableAt(ls, k)
    ensures |Scan(ls)| < |ls|
    decreases |ls|
  {
    if !TableAt(ls, 0) {
      TableAtTail(ls, k - 1);
      TableShrinks(ls[1..], k - 1);
    }
  }

  /** With no table start anywhere, the scan keeps every line. */
  lemma {:induction false} NoTablesKept(ls: seq<Line>)
    requires NoTables(ls)
    ensures Scan(ls) == KeptAll(Texts(ls))
    decreases |ls|
  {
    if |ls| > 0 {
      assert !TableAt(ls, 0);
      forall k: nat | k < |ls| - 1
        ensures !TableAt(ls[1..], k)
      {
        TableAtTail(ls, k);
      }
      NoTablesKept(ls[1..]);
      assert Texts(ls[1..]) == Texts(ls)[1..];
      assert KeptAll(Texts(ls)) == [Kept(ls[0].text)] + KeptAll(Texts(ls)[1..]);
    }
  }

  /** With no table start anywhere, the scan returns its input. */
  lemma NoTablesUnchanged(lines: seq<string>)
    requires NoTables(ClassifyAll(lines))
    ensures ProcessLines(lines) == lines
  {
    NoTablesKept(ClassifyAll(lines));
    ClassifyTexts(lines);
    RenderKept(lines);
  }

  /** The scan leaves the lines unchanged exactly when no line starts a table. */
  lemma UnchangedIffNoTables(lines: seq<string>)
    ensures ProcessLines(lines) == lines <==> NoTables(ClassifyAll(lines))
  {
    if NoTables(ClassifyAll(lines)) {
      NoTablesUnchanged(lines);
    } else {
      var k: nat :| k < |lines| && TableAt(ClassifyAll(lines), k);
      TableShrinks(ClassifyAll(lines), k);
    }
  }

  /** The index just after a table that starts at line `k`. */
  function TableEnd(ls: seq<Line>, k: nat): (end: nat)
    requires TableAt(ls, k)
    ensures k + 2 <= end <= |ls|
  {
    k + TableSpan(ls[k..])
  }

  /** At the first table start `k`, the lines before it are kept as they
      are; the header, the separator and the maximal run of body rows after
      them form one block; and the scan goes on after that run. */
  lemma FirstTableScan(ls: seq<Line>, k: nat)
    requires TableAt(ls, k)
    requires forall m: nat :: m < k ==> !TableAt(ls, m)
    ensures forall r :: k + 2 <= r < TableEnd(ls, k) ==> ls[r].isBodyRow
    ensures TableEnd(ls, k) < |ls| ==> !ls[TableEnd(ls, k)].isBodyRow
    ensures Scan(ls) == KeptAll(Texts(ls[..k])) + [Block(Texts(ls[k..TableEnd(ls, k)]))] + Scan(ls[TableEnd(ls, k)..])
  {
    var end := TableEnd(ls, k);
    TableRun(ls, k);
    KeptBeforeFirstTable(ls, k);
    ScanStep(ls, k, end);
    AppendAssoc(KeptAll(Texts(ls[..k])), [Block(Texts(ls[k..end]))], Scan(ls[end..]));
  }

  /** The same on the output lines: the lines before the first table are
      output as they are, then one line of table HTML for the header, the
      separator and the body rows, each trimmed, then the scan of the rest. */
  lemma FirstTable(ls: seq<Line>, k: nat)
    requires TableAt(ls, k)
    requires forall m: nat :: m < k ==> !TableAt(ls, m)
    ensures Render(Scan(ls)) == Texts(ls[..k]) + [ConvertTable(TrimLines(Texts(ls[k..TableEnd(ls, k)])))] + Render(Scan(ls[TableEnd(ls, k)..]))
  {
    var end := TableEnd(ls, k);
    FirstTableScan(ls, k);
    var before := KeptAll(Texts(ls[..k]));
    var block := [Block(Texts(ls[k..end]))];
    var after := Scan(ls[end..]);
    RenderAppend(before + block, after);
    RenderAppend(before, block);
    RenderKept(Texts(ls[..k]));
    assert Render(block) == [ConvertTable(TrimLines(Texts(ls[k..end])))];
  }

  /** The lines after a table's separator up to its end are body rows, and the
      line at its end, if any, is not. */
  lemma TableRun(ls: seq<Line>, k: nat)
    requires TableAt(ls, k)
    ensures TableEnd(ls, k) == k + 2 + BodyRun(ls[k + 2..])
    ensures forall r :: k + 2 <= r < TableEnd(ls, k) ==> ls[r].isBodyRow
    ensures TableEnd(ls, k) < |ls| ==> !ls[TableEnd(ls, k)].isBodyRow
  {
    assert ls[k..][2..] == ls[k + 2..];
    RunInside(ls, k + 2);
  }

  /** The run of body rows that starts at `off`, stated on the whole sequence. */
  lemma RunInside(ls: seq<Line>, off: nat)
    requires off <= |ls|
    ensures forall r :: off <= r < off + BodyRun(ls[off..]) ==> ls[r].isBodyRow
    ensures off + BodyRun(ls[off..]) < |ls| ==> !ls[off + BodyRun(ls[off..])].isBodyRow
  {
    var t := ls[off..];
    var n := BodyRun(t);
    BodyRunRows(t);
    forall r | off <= r < off + n
      ensures ls[r].isBodyRow
    {
      assert ls[r] == t[r - off];
    }
    if off + n < |ls| {
      assert ls[off + n] == t[n];
    }
  }

  /** Before the first table start every line is kept, in order. */
  lemma {:induction false} KeptBeforeFirstTable(ls: seq<Line>, k: nat)
    requires k <= |ls|
    requires forall m: nat :: m < k ==> !TableAt(ls, m)
    ensures Scan(ls) == KeptAll(Texts(ls[..k])) + Scan(ls[k..])
    decreases k
  {
    if k == 0 {
      assert ls[..0] == [] && ls[0..] == ls;
      assert KeptAll(Texts([])) == [];
    } else {
      assert !TableAt(ls, 0);
      var tail := ls[1..];
      forall m: nat | m < k - 1
        ensures !TableAt(tail, m)
      {
        TableAtTail(ls, m);
      }
      KeptBeforeFirstTable(tail, k - 1);
      assert Scan(ls) == [Kept(ls[0].text)] + Scan(tail);
      assert Scan(tail) == KeptAll(Texts(tail[..k - 1])) + Scan(ls[k..]) by {
        assert tail[k - 1..] == ls[k..];
      }
      assert KeptAll(Texts(ls[..k])) == [Kept(ls[0].text)] + KeptAll(Texts(tail[..k - 1]));
      AppendAssoc([Kept(ls[0].text)], KeptAll(Texts(tail[..k - 1])), Scan(ls[k..]));
    }
  }

  /** A document of one line — `"Just some text with | pipe"`, say — has no
      table and comes back unchanged. */
  lemma SingleLineUnchanged(markdown: string)
    requires '\n' !in markdown
    ensures ExtractTables(markdown) == markdown
  {
    SplitJoin([markdown], '\n');
    assert Join([markdown], "\n") == markdown;
    assert "\n" == ['\n'];
    NoTablesUnchanged([markdown]);
  }

  /** A line without `|` cannot start a table. */
  lemma NoPipeNoHeader(line: string)
    requires '|' !in line
    ensures !Classify(line).hasPipe
  {
    TrimKeeps(line, Whitespaces, '|');
  }

  /** A document without `|` holds no table and comes back unchanged. */
  lemma NoPipeUnchanged(markdown: string)
    requires '|' !in markdown
    ensures ExtractTables(markdown) == markdown
  {
    var lines := SplitOn(markdown, "\n");
    SplitPiecesIn(markdown, "\n");
    var ls := ClassifyAll(lines);
    forall k: nat | k < |ls|
      ensures !ls[k].hasPipe
    {
      ClassifyAt(lines, k);
      NoPipeNoHeader(lines[k]);
    }
    NoTablesUnchanged(lines);
    JoinSplit(markdown, "\n");
  }
}
