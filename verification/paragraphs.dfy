/** The last stage of `toHTML`: the converted text is cut into blocks at every
    blank line (`"\n\n"`), each block is trimmed of whitespace and newlines,
    an empty block becomes the empty string, a block that already starts
    with block-level HTML is kept as it is, and any other block becomes a
    paragraph whose line breaks are `<br>`. The blocks are joined again with
    a single newline. */
module Paragraphs {
  import opened Text

  /** The trimmed block starts with one of the tags the earlier stages emit
      for headers, lists, code, quotes, rules and tables. */
  predicate IsBlockLevel(t: string) {
    || StartsWith(t, "<h")
    || StartsWith(t, "<ul")
    || StartsWith(t, "<ol")
    || StartsWith(t, "<pre")
    || StartsWith(t, "<blockquote")
    || StartsWith(t, "<hr")
    || StartsWith(t, "<table")
  }

  /** The closure passed to `map` for one block. The result is empty exactly
      for a blank block; otherwise it is block-level exactly when the trimmed
      block is, and a paragraph is wrapped in `<p>` … `</p>` and holds no
      newline. */
  function RenderBlock(block: string): (r: string)
    ensures r == [] <==> AllInClass(block, WhitespacesAndNewlines)
    ensures r != [] ==> (IsBlockLevel(r) <==> IsBlockLevel(Trim(block, WhitespacesAndNewlines)))
    ensures r != [] && !IsBlockLevel(r) ==> StartsWith(r, "<p>") && EndsWith(r, "</p>") && '\n' !in r
  {
    var t := Trim(block, WhitespacesAndNewlines);
    TrimEmpty(block, WhitespacesAndNewlines);
    if t == [] then []
    else if IsBlockLevel(t) then t
    else
      var r := "<p>" + Replace(t, '\n', "<br>") + "</p>";
      assert r[0] == '<' && r[1] == 'p' && r[2] == '>';
      r
  }

  /** Every block rendered on its own. */
  function RenderAll(blocks: seq<string>): (rs: seq<string>)
    ensures |rs| == |blocks|
  {
    seq(|blocks|, k requires 0 <= k < |blocks| => RenderBlock(blocks[k]))
  }

  /** The paragraph pass over the whole text. A text made only of whitespace
      and newlines comes out as newlines only: its blank blocks are kept as
      empty strings between the separators. */
  function AssembleParagraphs(html: string): (r: string)
    ensures AllInClass(html, WhitespacesAndNewlines) ==> forall i :: 0 <= i < |r| ==> r[i] == '\n'
  {
    BlankBlocks(html);
    Join(RenderAll(SplitOn(html, "\n\n")), "\n")
  }

  /** Every block of a text made only of whitespace and newlines renders as
      the empty string. */
  lemma BlankBlocks(html: string)
    ensures AllInClass(html, WhitespacesAndNewlines) ==>
      forall i :: 0 <= i < |Join(RenderAll(SplitOn(html, "\n\n")), "\n")| ==>
        Join(RenderAll(SplitOn(html, "\n\n")), "\n")[i] == '\n'
  {
    var blocks := SplitOn(html, "\n\n");
    if AllInClass(html, WhitespacesAndNewlines) {
      SplitPiecesIn(html, "\n\n");
      forall k | 0 <= k < |blocks|
        ensures RenderAll(blocks)[k] == []
      {
        assert forall i :: 0 <= i < |blocks[k]| ==> blocks[k][i] in html;
      }
      JoinOfEmpties(RenderAll(blocks));
    }
  }

  /** Joining empty strings with a newline leaves only newlines. */
  lemma {:induction false} JoinOfEmpties(parts: seq<string>)
    requires forall k :: 0 <= k < |parts| ==> parts[k] == []
    ensures forall i :: 0 <= i < |Join(parts, "\n")| ==> Join(parts, "\n")[i] == '\n'
    decreases |parts|
  {
    if |parts| >= 2 {
      JoinOfEmpties(parts[1..]);
      assert Join(parts, "\n") == "\n" + Join(parts[1..], "\n");
    }
  }

  /** Blocks that the split gives back unchanged once joined with a blank
      line: none holds a blank line and none but the last ends in a newline. */
  predicate Separable(blocks: seq<string>) {
    && |blocks| >= 1
    && (forall k :: 0 <= k < |blocks| ==> !ContainsSub(blocks[k], "\n\n"))
    && (forall k :: 0 <= k < |blocks| - 1 ==> blocks[k] == [] || blocks[k][|blocks[k]| - 1] != '\n')
  }

  /** Non-empty lines without a newline, joined by single newlines, hold no
      blank line. */
  lemma JoinedLinesSeparable(lines: seq<string>)
    requires forall k :: 0 <= k < |lines| ==> lines[k] != [] && '\n' !in lines[k]
    ensures Separable([Join(lines, "\n")])
  {
    var text := Join(lines, "\n");
    assert !ContainsSub(text, "\n\n") by {
      JoinNoDouble(lines, '\n');
      NoDoubleNoPair(text, '\n');
    }
  }

  /** Blocks written one after the other with a blank line between them are
      rendered one by one and joined with a single newline. */
  lemma AssembleJoined(blocks: seq<string>)
    requires Separable(blocks)
    ensures AssembleParagraphs(Join(blocks, "\n\n")) == Join(RenderAll(blocks), "\n")
  {
    assert "\n\n" == ['\n', '\n'];
    SplitJoinPair(blocks, '\n', '\n');
  }

  /** Block-level HTML with any whitespace around it is kept as it is, without
      the whitespace. */
  lemma BlockPassesThrough(pre: string, t: string, post: string)
    requires AllInClass(pre, WhitespacesAndNewlines) && AllInClass(post, WhitespacesAndNewlines)
    requires IsTrimmed(t, WhitespacesAndNewlines) && IsBlockLevel(t)
    ensures RenderBlock(pre + t + post) == t
  {
    TrimAround(pre, t, post, WhitespacesAndNewlines);
  }

  /** Lines of text that are not block-level become one paragraph whose lines
      are separated by `<br>`. */
  lemma ParagraphOfLines(pre: string, lines: seq<string>, post: string)
    requires AllInClass(pre, WhitespacesAndNewlines) && AllInClass(post, WhitespacesAndNewlines)
    requires forall k :: 0 <= k < |lines| ==> '\n' !in lines[k]
    requires Join(lines, "\n") != [] && IsTrimmed(Join(lines, "\n"), WhitespacesAndNewlines)
    requires !IsBlockLevel(Join(lines, "\n"))
    ensures RenderBlock(pre + Join(lines, "\n") + post) == "<p>" + Join(lines, "<br>") + "</p>"
  {
    TrimAround(pre, Join(lines, "\n"), post, WhitespacesAndNewlines);
    assert "\n" == ['\n'];
    ReplaceJoin(lines, '\n', "<br>");
  }

  /** Two plain paragraphs separated by a blank line, as in
      `"Para one\n\nPara two"`, become two `<p>` elements on two lines. */
  lemma TwoParagraphs(a: string, b: string)
    requires '\n' !in a && '\n' !in b
    requires a != [] && IsTrimmed(a, WhitespacesAndNewlines) && !IsBlockLevel(a)
    requires b != [] && IsTrimmed(b, WhitespacesAndNewlines) && !IsBlockLevel(b)
    ensures AssembleParagraphs(a + "\n\n" + b) == "<p>" + a + "</p>\n<p>" + b + "</p>"
  {
    var blocks := [a, b];
    NoBlankLine(a);
    NoBlankLine(b);
    assert a[|a| - 1] in a;
    assert Separable(blocks);
    AssembleJoined(blocks);
    assert Join(blocks, "\n\n") == a + "\n\n" + b;
    RenderTwo(a, b);
  }

  lemma RenderTwo(a: string, b: string)
    requires '\n' !in a && '\n' !in b
    requires a != [] && IsTrimmed(a, WhitespacesAndNewlines) && !IsBlockLevel(a)
    requires b != [] && IsTrimmed(b, WhitespacesAndNewlines) && !IsBlockLevel(b)
    ensures Join(RenderAll([a, b]), "\n") == "<p>" + a + "</p>\n<p>" + b + "</p>"
  {
    var pa, pb := "<p>" + a + "</p>", "<p>" + b + "</p>";
    SingleLine(a);
    SingleLine(b);
    assert RenderAll([a, b]) == [pa, pb];
    JoinTwoParagraphs(a, b);
  }

  lemma JoinTwoParagraphs(a: string, b: string)
    ensures Join(["<p>" + a + "</p>", "<p>" + b + "</p>"], "\n") == "<p>" + a + "</p>\n<p>" + b + "</p>"
  {
    var pa, pb := "<p>" + a + "</p>", "<p>" + b + "</p>";
    assert Join([pa, pb], "\n") == pa + "\n" + pb;
    assert "</p>" + "\n" + "<p>" == "</p>\n<p>";
    assert pa + "\n" + pb == "<p>" + a + ("</p>" + "\n" + "<p>") + b + "</p>";
  }

  /** Two blank lines in a row leave an empty block, which is kept as an
      empty line: `"a\n\n\n\nb"` gives `"<p>a</p>\n\n<p>b</p>"`. */
  lemma EmptyBlockKept(a: string, b: string)
    requires '\n' !in a && '\n' !in b
    requires a != [] && IsTrimmed(a, WhitespacesAndNewlines) && !IsBlockLevel(a)
    requires b != [] && IsTrimmed(b, WhitespacesAndNewlines) && !IsBlockLevel(b)
    ensures AssembleParagraphs(a + "\n\n\n\n" + b) == ("<p>" + a + "</p>") + "\n\n" + ("<p>" + b + "</p>")
  {
    var blocks := [a, "", b];
    NoBlankLine(a);
    NoBlankLine(b);
    NoBlankLine("");
    assert a[|a| - 1] in a;
    assert Separable(blocks);
    AssembleJoined(blocks);
    Doubled();
    JoinAroundEmpty(a, b, "\n\n", "\n\n\n\n");
    RenderThree(a, b);
  }

  /** An empty piece between two others leaves two separators in a row. */
  lemma JoinAroundEmpty(a: string, b: string, sep: string, twice: string)
    requires twice == sep + sep
    ensures Join([a, "", b], sep) == a + twice + b
  {
    assert [a, "", b][1..] == ["", b] && ["", b][1..] == [b];
    assert Join(["", b], sep) == "" + sep + b;
    assert Join([a, "", b], sep) == a + sep + Join(["", b], sep);
    assert sep + ("" + sep + b) == twice + b;
  }

  lemma RenderThree(a: string, b: string)
    requires '\n' !in a && '\n' !in b
    requires a != [] && IsTrimmed(a, WhitespacesAndNewlines) && !IsBlockLevel(a)
    requires b != [] && IsTrimmed(b, WhitespacesAndNewlines) && !IsBlockLevel(b)
    ensures Join(RenderAll([a, "", b]), "\n") == ("<p>" + a + "</p>") + ("\n" + "\n") + ("<p>" + b + "</p>")
  {
    RenderedThree(a, b);
    JoinAroundEmpty("<p>" + a + "</p>", "<p>" + b + "</p>", "\n", "\n" + "\n");
  }

  /** The outer blocks become paragraphs and the empty one stays empty. */
  lemma RenderedThree(a: string, b: string)
    requires '\n' !in a && '\n' !in b
    requires a != [] && IsTrimmed(a, WhitespacesAndNewlines) && !IsBlockLevel(a)
    requires b != [] && IsTrimmed(b, WhitespacesAndNewlines) && !IsBlockLevel(b)
    ensures RenderAll([a, "", b]) == ["<p>" + a + "</p>", "", "<p>" + b + "</p>"]
  {
    var rs := RenderAll([a, "", b]);
    SingleLine(a);
    SingleLine(b);
    assert rs[1] == [] by {
      assert rs[1] == RenderBlock("");
    }
  }

  lemma Doubled()
    ensures "\n" + "\n" == "\n\n"
    ensures "\n\n" + "\n\n" == "\n\n\n\n"
  {
  }

  /** A text without a newline holds no blank line. */
  lemma NoBlankLine(x: string)
    requires '\n' !in x
    ensures !ContainsSub(x, "\n\n")
  {
    forall j: nat | j <= |x|
      ensures !OccursAt(x, "\n\n", j)
    {
      if j + 2 <= |x| {
        assert x[j..j + 2][0] == x[j];
      }
    }
  }

  /** One line of plain text becomes one paragraph. */
  lemma SingleLine(a: string)
    requires '\n' !in a
    requires a != [] && IsTrimmed(a, WhitespacesAndNewlines) && !IsBlockLevel(a)
    ensures RenderBlock(a) == "<p>" + a + "</p>"
  {
    ParagraphOfLines("", [a], "");
    assert "" + a + "" == a;
  }
}
