/** `toHTML`: tables are converted first, then `&`, `<` and `>` outside tags
    are escaped, then the regular-expression rewrites for code, headers,
    emphasis, links, rules, quotes and lists run, and last the text is cut
    into paragraphs. The regular-expression rewrites are a parameter here. */
module Converter {
  import opened Text
  import opened Escaper
  import opened TablePass
  import opened Paragraphs

  /** The converter with its regular-expression stages given as `rewrite`:
      the paragraph pass over what the rewrites make of the escaped text
      after the table pass. A document without `|` holds no table, so its
      table pass changes nothing. */
  function ToHTML(markdown: string, rewrite: string -> string): (html: string)
    ensures '|' !in markdown ==> html == AssembleParagraphs(rewrite(EscapeOutsideTags(markdown)))
  {
    var html := AssembleParagraphs(rewrite(EscapeOutsideTags(ExtractTables(markdown))));
    if '|' in markdown then html
    else NoPipeUnchanged(markdown); html
  }

  /** Plain text without markup: no newline, none of `&`, `<`, `>`. */
  predicate Plain(s: string) {
    '\n' !in s && '&' !in s && '<' !in s && '>' !in s
  }

  /** A single line of plain text that the rewrites leave alone becomes one
      paragraph holding the line, as in `"Hello"` becoming `"<p>Hello</p>"`. */
  lemma PlainLineIsParagraph(line: string, rewrite: string -> string)
    requires Plain(line) && line != [] && IsTrimmed(line, WhitespacesAndNewlines)
    requires rewrite(line) == line
    ensures ToHTML(line, rewrite) == "<p>" + line + "</p>"
  {
    calc {
      ToHTML(line, rewrite);
    == { SingleLineUnchanged(line); }
      AssembleParagraphs(rewrite(EscapeOutsideTags(line)));
    == { PlainTextUnchanged(line); }
      AssembleParagraphs(line);
    == { OneBlock(line); }
      "<p>" + line + "</p>";
    }
  }

  /** An `&` in a line of text comes out as `&amp;` inside the paragraph, as
      in `"foo & bar"` becoming `"<p>foo &amp; bar</p>"`, when the rewrites
      leave the escaped line alone. */
  lemma AmpersandInParagraph(a: string, b: string, rewrite: string -> string)
    requires Plain(a) && Plain(b)
    requires IsTrimmed(a + "&" + b, WhitespacesAndNewlines)
    requires rewrite(a + "&amp;" + b) == a + "&amp;" + b
    ensures ToHTML(a + "&" + b, rewrite) == "<p>" + (a + "&amp;" + b) + "</p>"
  {
    var line := a + "&" + b;
    var out := a + "&amp;" + b;
    assert '\n' !in line;
    SingleLineUnchanged(line);
    AmpersandBetweenPlainText(a, b);
    SameEnds(a, b);
    assert '\n' !in out && '<' !in out;
    OneBlock(out);
    assert ToHTML(line, rewrite) == AssembleParagraphs(out);
  }

  /** Replacing the `&` of a trimmed line by `&amp;` keeps it trimmed. */
  lemma SameEnds(a: string, b: string)
    requires IsTrimmed(a + "&" + b, WhitespacesAndNewlines)
    ensures IsTrimmed(a + "&amp;" + b, WhitespacesAndNewlines)
  {
    var x, y := a + "&" + b, a + "&amp;" + b;
    if a != [] {
      assert y[0] == x[0];
    }
    if b != [] {
      assert y[|y| - 1] == x[|x| - 1];
    }
  }

  /** A trimmed line of text without `<` and without a newline is one
      paragraph for the paragraph pass. */
  lemma OneBlock(line: string)
    requires '\n' !in line && '<' !in line
    requires line != [] && IsTrimmed(line, WhitespacesAndNewlines)
    ensures AssembleParagraphs(line) == "<p>" + line + "</p>"
  {
    NoBlankLine(line);
    assert Separable([line]);
    OneBlockRendered(line);
    assert line[0] in line;
    NoAngleNoBlock(line);
    SingleLine(line);
  }

  /** Lines of plain text: non-empty, without markup and without `|`, and
      trimmed as a whole. */
  predicate PlainLines(lines: seq<string>) {
    && |lines| >= 1
    && (forall k :: 0 <= k < |lines| ==> lines[k] != [] && Plain(lines[k]) && '|' !in lines[k])
    && IsTrimmed(Join(lines, "\n"), WhitespacesAndNewlines)
  }

  /** Lines of plain text without `|` and without a blank line between them,
      which the rewrites leave alone, form one paragraph in which every line
      break becomes `<br>`. */
  lemma PlainLinesAreParagraph(lines: seq<string>, rewrite: string -> string)
    requires PlainLines(lines)
    requires rewrite(Join(lines, "\n")) == Join(lines, "\n")
    ensures ToHTML(Join(lines, "\n"), rewrite) == "<p>" + Join(lines, "<br>") + "</p>"
  {
    var text := Join(lines, "\n");
    calc {
      ToHTML(text, rewrite);
    == { PlainLinesSkipTables(lines, rewrite); }
      AssembleParagraphs(rewrite(EscapeOutsideTags(text)));
    == { PlainLinesSkipEscaper(lines, rewrite); }
      AssembleParagraphs(rewrite(text));
    ==
      AssembleParagraphs(text);
    == { PlainLinesParagraph(lines); }
      "<p>" + Join(lines, "<br>") + "</p>";
    }
  }

  /** The table pass leaves plain lines alone. Each stage is stated on its
      own so that no proof holds two texts equal to their own images. */
  lemma PlainLinesSkipTables(lines: seq<string>, rewrite: string -> string)
    requires PlainLines(lines)
    ensures ToHTML(Join(lines, "\n"), rewrite) == AssembleParagraphs(rewrite(EscapeOutsideTags(Join(lines, "\n"))))
  {
    JoinAvoids(lines, "\n", '|');
  }

  /** The escaper leaves plain lines alone. */
  lemma PlainLinesSkipEscaper(lines: seq<string>, rewrite: string -> string)
    requires PlainLines(lines)
    ensures AssembleParagraphs(rewrite(EscapeOutsideTags(Join(lines, "\n")))) == AssembleParagraphs(rewrite(Join(lines, "\n")))
  {
    PlainLinesUnescaped(lines);
  }

  /** The paragraph pass makes plain lines one paragraph. */
  lemma PlainLinesParagraph(lines: seq<string>)
    requires PlainLines(lines)
    ensures AssembleParagraphs(Join(lines, "\n")) == "<p>" + Join(lines, "<br>") + "</p>"
  {
    PlainLinesOneBlock(lines);
  }

  /** Lines without `&`, `<` and `>` joined by newlines pass the escaper unchanged. */
  lemma PlainLinesUnescaped(lines: seq<string>)
    requires forall k :: 0 <= k < |lines| ==> Plain(lines[k])
    ensures EscapeOutsideTags(Join(lines, "\n")) == Join(lines, "\n")
  {
    JoinAvoids(lines, "\n", '&');
    JoinAvoids(lines, "\n", '<');
    JoinAvoids(lines, "\n", '>');
    PlainTextUnchanged(Join(lines, "\n"));
  }

  /** Non-empty plain lines joined by single newlines are one block, and it
      becomes one paragraph. */
  lemma PlainLinesOneBlock(lines: seq<string>)
    requires |lines| >= 1
    requires forall k :: 0 <= k < |lines| ==> lines[k] != [] && Plain(lines[k])
    requires IsTrimmed(Join(lines, "\n"), WhitespacesAndNewlines)
    ensures AssembleParagraphs(Join(lines, "\n")) == "<p>" + Join(lines, "<br>") + "</p>"
  {
    JoinedLinesSeparable(lines);
    PlainLinesNotBlock(lines);
    LinesParagraph(lines);
  }

  /** Plain lines joined by newlines are not empty and not block-level. */
  lemma PlainLinesNotBlock(lines: seq<string>)
    requires |lines| >= 1
    requires forall k :: 0 <= k < |lines| ==> lines[k] != [] && Plain(lines[k])
    ensures Join(lines, "\n") != [] && !IsBlockLevel(Join(lines, "\n"))
  {
    assert "\n" == ['\n'];
    JoinNoDouble(lines, '\n');
    JoinAvoids(lines, "\n", '<');
    NoAngleNoBlock(Join(lines, "\n"));
  }

  /** A single block of lines that is not block-level is one paragraph. */
  lemma LinesParagraph(lines: seq<string>)
    requires forall k :: 0 <= k < |lines| ==> '\n' !in lines[k]
    requires Separable([Join(lines, "\n")])
    requires Join(lines, "\n") != [] && !IsBlockLevel(Join(lines, "\n"))
    requires IsTrimmed(Join(lines, "\n"), WhitespacesAndNewlines)
    ensures AssembleParagraphs(Join(lines, "\n")) == "<p>" + Join(lines, "<br>") + "</p>"
  {
    var text := Join(lines, "\n");
    OneBlockRendered(text);
    Unpadded(text);
    ParagraphOfLines("", lines, "");
  }

  lemma Unpadded(t: string)
    ensures "" + t + "" == t
  {
  }

  /** A text with no blank line is a single block for the paragraph pass. */
  lemma OneBlockRendered(text: string)
    requires Separable([text])
    ensures AssembleParagraphs(text) == Paragraphs.RenderBlock(text)
  {
    AssembleJoined([text]);
    assert Join([text], "\n\n") == text;
    assert RenderAll([text]) == [Paragraphs.RenderBlock(text)];
  }

  /** A document of blank space that the rewrites leave alone comes out as
      newlines only, so no paragraph is ever made of whitespace:
      `"   \n\n   "` gives no `<p>`. */
  lemma BlankDocument(markdown: string, rewrite: string -> string)
    requires AllInClass(markdown, WhitespacesAndNewlines)
    requires rewrite(markdown) == markdown
    ensures forall i :: 0 <= i < |ToHTML(markdown, rewrite)| ==> ToHTML(markdown, rewrite)[i] == '\n'
  {
    calc {
      ToHTML(markdown, rewrite);
    == { BlankSkipsTables(markdown, rewrite); }
      AssembleParagraphs(rewrite(EscapeOutsideTags(markdown)));
    == { BlankSkipsEscaper(markdown, rewrite); }
      AssembleParagraphs(rewrite(markdown));
    ==
      AssembleParagraphs(markdown);
    }
  }

  /** The empty document gives the empty page when the rewrites map the
      empty text to itself. */
  lemma EmptyDocument(rewrite: string -> string)
    requires rewrite("") == ""
    ensures ToHTML("", rewrite) == ""
  {
    calc {
      ToHTML("", rewrite);
    == { BlankSkipsTables("", rewrite); }
      AssembleParagraphs(rewrite(EscapeOutsideTags("")));
    == { BlankSkipsEscaper("", rewrite); }
      AssembleParagraphs(rewrite(""));
    ==
      AssembleParagraphs("");
    == { EmptyParagraphs(); }
      "";
    }
  }

  lemma EmptyParagraphs()
    ensures AssembleParagraphs("") == ""
  {
    AssembleJoined([""]);
    assert Join([""], "\n\n") == "";
    assert RenderAll([""]) == [""];
  }

  /** The table pass leaves blank space alone. */
  lemma BlankSkipsTables(markdown: string, rewrite: string -> string)
    requires AllInClass(markdown, WhitespacesAndNewlines)
    ensures ToHTML(markdown, rewrite) == AssembleParagraphs(rewrite(EscapeOutsideTags(markdown)))
  {
    assert '|' !in markdown;
  }

  /** The escaper leaves blank space alone. */
  lemma BlankSkipsEscaper(markdown: string, rewrite: string -> string)
    requires AllInClass(markdown, WhitespacesAndNewlines)
    ensures AssembleParagraphs(rewrite(EscapeOutsideTags(markdown))) == AssembleParagraphs(rewrite(markdown))
  {
    assert '&' !in markdown && '<' !in markdown && '>' !in markdown;
    PlainTextUnchanged(markdown);
  }

  /** Every block-level prefix starts with `<`. */
  lemma NoAngleNoBlock(t: string)
    requires '<' !in t
    ensures !IsBlockLevel(t)
  {
    if t != [] {
      assert t[0] in t;
    }
  }
}
