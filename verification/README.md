# MDView's Markdown-to-HTML converter, modelled in Dafny

MDView renders a Markdown document as one HTML string with
`MarkdownParser.toHTML`. This runs a fixed sequence of passes over the text:

1. **Table pass** (`processTables`, with `convertTableToHTML` and its nested
   `parseCells`). Every pipe table (a header line, a separator line and the
   greedy run of body rows) is replaced by a single line of table markup.
2. **Escaper** (`escapeHTMLOutsideTags`). One left-to-right scan with an
   "inside a tag" flag. Outside a tag it replaces `&` and `>` by entities;
   a `<` opens a tag, and everything up to the next `>` is copied as it is.
3. **Regular-expression rewrites**: code, headers, emphasis, links, rules,
   quotes and lists.
4. **Paragraph pass**:
   - The text is cut at every blank line, and each block is trimmed.
   - A blank block becomes the empty string.
   - A block that starts with block-level markup is kept.
   - Any other block becomes `<p>…</p>`, with `<br>` for its line breaks.
   - The blocks are joined with single newlines.

The model has these modules:

- `Text`: the Foundation string operations the converter uses, over `seq<char>`. These are trimming a character set, `components(separatedBy:)`, `joined(separator:)` and replacing a character.
- `Escaper`: the escaper as a two-state machine. It includes `escapeHTMLOutsideTags`'s loop as a method, and an independent reading of the scan by spans.
- `Table`: `parseCells` and `convertTableToHTML`.
- `TablePass`: `processTables`. It holds `processTables`'s loop as a method, a functional reference scan that the loop is proved to compute, and properties of that scan.
- `Paragraphs`: the paragraph pass.
- `Converter`: `toHTML`, with the regular-expression rewrites as a parameter.
- `TableMarkup`: how the escaper treats the generated table markup.
- `TableDocument`: the whole converter on a document that is one table.

## Model

All source paths are `MDView/Sources/MarkdownParserLib/MarkdownParser.swift`.

| member | source | states |
|---|---|---|
| Escaper.EscapeHTMLOutsideTags | MDView/Sources/MarkdownParserLib/MarkdownParser.swift:158-183 | The loop, with its Boolean flag and `switch`, computes the fold of the two-state scan that starts outside a tag, and the result is never shorter than the input |
| Escaper.EscapeMatchesSpans | MDView/Sources/MarkdownParserLib/MarkdownParser.swift:158-183 | The scan agrees on every text with a reading by spans: from a `<` to the next `>` (or to the end) is copied verbatim, and every character between spans is replaced by its entity |
| Escaper.InsideTagCopies | MDView/Sources/MarkdownParserLib/MarkdownParser.swift:164-172 | Inside a tag the scan copies up to and including the first `>` and continues outside; with no `>` left it copies the rest |
| Escaper.RunKeepsAngles | MDView/Sources/MarkdownParserLib/MarkdownParser.swift:164-177 | The output has exactly as many `<` as the input: no `<` is ever turned into `&lt;`, so the `"<"` case of the switch is never reached |
| Escaper.EscapeWithoutTags | MDView/Sources/MarkdownParserLib/MarkdownParser.swift:173-179 | Text without `<` never enters a tag: the result is the entity substitution of every character, and the scan ends outside a tag |
| Escaper.PlainTextUnchanged | MDView/Sources/MarkdownParserLib/MarkdownParser.swift:173-179 | Text without `&`, `<` and `>` comes out unchanged |
| Escaper.RunAppend | MDView/Sources/MarkdownParserLib/MarkdownParser.swift:163-181 | Escaping a concatenation is escaping the first part, then the second from the state the first part left |
| Escaper.TagSurvives | MDView/Sources/MarkdownParserLib/MarkdownParser.swift:164-170 | A tag `<body>` met outside a tag is copied verbatim and the scan resumes outside after it |
| Escaper.AmpersandBetweenPlainText | MDView/Sources/MarkdownParserLib/MarkdownParser.swift:175 | An `&` between plain text becomes `&amp;` and the text around it is kept (`"foo & bar"` gives `"foo &amp; bar"`) |
| Escaper.TagsSurviveAroundAmpersand | MDView/Sources/MarkdownParserLib/MarkdownParser.swift:158-183 | Tags around text survive while the `&` between them is escaped (`"<table>content & more</table>"`) |
| Escaper.WrittenMarkupSurvives | MDView/Sources/MarkdownParserLib/MarkdownParser.swift:164-172 | Markup written in the document is copied as it is, whatever the tag, so `<script>…</script>` is not escaped |
| Escaper.UnclosedTagCopied | MDView/Sources/MarkdownParserLib/MarkdownParser.swift:164-172 | Wherever it stands, a stray `<` with no `>` after it makes the scan copy the `<` and the rest of the text unescaped, while the text before it is escaped as usual |
| Escaper.EscapesToAppend | MDView/Sources/MarkdownParserLib/MarkdownParser.swift:163-181 | Pieces that each end outside a tag are escaped piece by piece |
| Escaper.TagEscapesTo | MDView/Sources/MarkdownParserLib/MarkdownParser.swift:164-170 | A tag is copied and leaves the scan outside a tag |
| Table.ParseCells | MDView/Sources/MarkdownParserLib/MarkdownParser.swift:128-134 | Every cell is trimmed of spaces and tabs and holds no `|`. A row with n pipes gives n+1 cells less zero, one or two. The cells are the trimmed pieces with the first removed exactly when it is empty, then the last remaining one removed exactly when it is empty |
| Table.DropEmptyEnds | MDView/Sources/MarkdownParserLib/MarkdownParser.swift:131-132 | Removes the first piece exactly when it is empty, then the last remaining piece exactly when it is empty, and keeps the rest in order (`"\|a\|"` gives `["a"]`) |
| Table.ParseRowLine | MDView/Sources/MarkdownParserLib/MarkdownParser.swift:128-134 | Parsing a row written as `\| c1 \| … \| cn \|` gives back exactly its cells, empty inner cells included |
| Table.ConvertTable | MDView/Sources/MarkdownParserLib/MarkdownParser.swift:125-156 | Fewer than two lines are joined back unchanged. Otherwise the result starts with the table, head and row tags and ends with the body and table end tags |
| Table.TableFrame | MDView/Sources/MarkdownParserLib/MarkdownParser.swift:140-154 | The table markup opens with `<table>\n<thead>\n<tr>` and closes with `</tbody>\n</table>` |
| Table.ShortTableExample | MDView/Sources/MarkdownParserLib/MarkdownParser.swift:126 | A single line `"\| A \|"` is returned as it is |
| Table.SeparatorIgnored | MDView/Sources/MarkdownParserLib/MarkdownParser.swift:136-138 | Replacing the second line by anything leaves the result unchanged |
| Table.ConvertWrittenTable | MDView/Sources/MarkdownParserLib/MarkdownParser.swift:136-155 | A written table renders exactly its cells: the header cells as `<th>` and each body row's cells as `<td>`, in order |
| TablePass.SeparatorChars | MDView/Sources/MarkdownParserLib/MarkdownParser.swift:90-94 | `processTables`'s chain of four replacements accepts exactly the lines that contain `\|` and `-` and are made only of `\|`, `-`, `:` and spaces |
| TablePass.ProcessTables | MDView/Sources/MarkdownParserLib/MarkdownParser.swift:79-123 | The loop, over a line array that shrinks when a table is replaced, computes the reference scan. When no line starts a table it returns the document unchanged |
| TablePass.CollectTable | MDView/Sources/MarkdownParserLib/MarkdownParser.swift:96-108 | The inner loop collects the header, the separator and exactly the greedy run of body rows, each trimmed |
| TablePass.TableTest | MDView/Sources/MarkdownParserLib/MarkdownParser.swift:85-96 | The loop's table test at line i holds exactly when the reference scan sees a table start there |
| TablePass.TableStep | MDView/Sources/MarkdownParserLib/MarkdownParser.swift:96-116 | A table at line i whose body run ends at j becomes one line of table markup, and the scan continues at j |
| TablePass.KeepStep | MDView/Sources/MarkdownParserLib/MarkdownParser.swift:119 | A line that starts no table is output as it is, and the scan continues at the next line |
| TablePass.UnchangedIffNoTables | MDView/Sources/MarkdownParserLib/MarkdownParser.swift:79-123 | The pass returns its lines unchanged if and only if no line starts a table |
| TablePass.TableShrinks | MDView/Sources/MarkdownParserLib/MarkdownParser.swift:110-116 | A table anywhere makes the output shorter than the input |
| TablePass.FirstTable | MDView/Sources/MarkdownParserLib/MarkdownParser.swift:96-117 | At the first table start, the lines before it are output as they are. Then comes one line of table markup for the header, the separator and the maximal body run, then the scan of the rest |
| TablePass.KeptBeforeFirstTable | MDView/Sources/MarkdownParserLib/MarkdownParser.swift:83-119 | Every line before the first table start is kept, in order |
| TablePass.SingleLineUnchanged | MDView/Sources/MarkdownParserLib/MarkdownParser.swift:80-122 | A one-line document, pipes included, comes back unchanged |
| TableMarkup.TableSurvivesEscaper | MDView/Sources/MarkdownParserLib/MarkdownParser.swift:8-15 | Tables are converted before escaping because the escaper keeps every generated tag. It replaces only the entities inside the cells and ends outside a tag |
| TableMarkup.CellsEscape | MDView/Sources/MarkdownParserLib/MarkdownParser.swift:141-143 | The `<th>`/`<td>` tags around the cells survive the escaper and the cells are escaped |
| TableMarkup.RowsEscape | MDView/Sources/MarkdownParserLib/MarkdownParser.swift:146-152 | The `<tr>` rows survive the escaper and their cells are escaped |
| Paragraphs.RenderBlock | MDView/Sources/MarkdownParserLib/MarkdownParser.swift:65-73 | A block renders as empty exactly when it is blank. Otherwise the result is block-level exactly when the trimmed block is, and a paragraph is wrapped in `<p>`…`</p>` with no newline left |
| Paragraphs.AssembleParagraphs | MDView/Sources/MarkdownParserLib/MarkdownParser.swift:64-74 | A text of only whitespace and newlines comes out as newlines only |
| Paragraphs.AssembleJoined | MDView/Sources/MarkdownParserLib/MarkdownParser.swift:64-74 | Blocks written with a blank line between them are rendered one by one and joined with a single newline |
| Paragraphs.BlockPassesThrough | MDView/Sources/MarkdownParserLib/MarkdownParser.swift:66-71 | Block-level markup with whitespace around it is kept without the whitespace |
| Paragraphs.ParagraphOfLines | MDView/Sources/MarkdownParserLib/MarkdownParser.swift:73 | Lines of text that are not block-level become one paragraph whose lines are separated by `<br>` |
| Paragraphs.TwoParagraphs | MDView/Sources/MarkdownParserLib/MarkdownParser.swift:64-74 | `"a\n\nb"` becomes `"<p>a</p>\n<p>b</p>"` |
| Paragraphs.EmptyBlockKept | MDView/Sources/MarkdownParserLib/MarkdownParser.swift:64-74 | An empty block between two paragraphs is kept as an empty line: `"a\n\n\n\nb"` gives `"<p>a</p>\n\n<p>b</p>"` |
| Converter.ToHTML | MDView/Sources/MarkdownParserLib/MarkdownParser.swift:7-77 | The page is the paragraph pass over what the rewrites make of the escaped text after the table pass. A document without `\|` skips the table pass: its page is the paragraph pass over the rewrites of the escaped document |
| Converter.PlainLineIsParagraph | MDView/Sources/MarkdownParserLib/MarkdownParser.swift:7-77 | A line of plain text that the rewrites leave alone becomes one paragraph holding it (`"Hello world"` gives `"<p>Hello world</p>"`) |
| Converter.PlainLinesAreParagraph | MDView/Sources/MarkdownParserLib/MarkdownParser.swift:7-77 | Plain lines without `\|` and without a blank line between them, which the rewrites leave alone, form one paragraph with `<br>` between the lines |
| Converter.AmpersandInParagraph | MDView/Sources/MarkdownParserLib/MarkdownParser.swift:7-77 | An `&` between plain text comes out as `&amp;` inside one paragraph (`"Tom & Jerry"` gives `"<p>Tom &amp; Jerry</p>"`), when the rewrites leave the escaped line alone |
| Converter.BlankDocument | MDView/Sources/MarkdownParserLib/MarkdownParser.swift:7-77 | A document of blank space that the rewrites leave alone comes out as newlines only, with no paragraph made of whitespace |
| Converter.EmptyDocument | MDView/Sources/MarkdownParserLib/MarkdownParser.swift:7-77 | The empty document gives the empty page when the rewrites map the empty text to itself |
| TableDocument.TableDocumentRendered | MDView/Sources/MarkdownParserLib/MarkdownParser.swift:7-77 | A document that is one written table becomes exactly the table markup of its cells, with the cells escaped and nothing around it, when the rewrites leave that markup alone |
| TableDocument.WrittenTableExtracted | MDView/Sources/MarkdownParserLib/MarkdownParser.swift:79-123 | The table pass replaces a written table by the table markup of its cells |
| TableDocument.TableIsBlock | MDView/Sources/MarkdownParserLib/MarkdownParser.swift:64-74 | Table markup over one-line cells holds no blank line, and the paragraph pass returns it unchanged |
| TableDocument.RowLineTrimmed | MDView/Sources/MarkdownParserLib/MarkdownParser.swift:101-102 | A written row is already trimmed and holds a `\|`, so it counts as a body row |
| Text.SplitCount | MDView/Sources/MarkdownParserLib/MarkdownParser.swift:129 | Splitting on a character gives one piece more than the character's occurrences |
| Text.JoinSplit | MDView/Sources/MarkdownParserLib/MarkdownParser.swift:80-122 | Joining the lines of a split with the same separator restores the text |
| Text.SplitJoin | MDView/Sources/MarkdownParserLib/MarkdownParser.swift:80 | Splitting a join of pieces free of the separator character gives back the pieces |
| Text.TrimPadded | MDView/Sources/MarkdownParserLib/MarkdownParser.swift:129 | A trimmed cell padded by one space on each side trims back to the cell |
| Text.TrimKeeps | MDView/Sources/MarkdownParserLib/MarkdownParser.swift:85 | Trimming whitespace never removes or adds a `\|` |

## Left out

- The regular-expression rewrites (lines 17-61) are not modelled. `Converter.ToHTML` takes them as a parameter `rewrite`. The end-to-end lemmas hold for every `rewrite` that leaves the text it receives unchanged, which is a hypothesis of each of them. Which texts the real patterns leave alone is not modelled. Those patterns rewrite fenced and inline code (`` ` ``), headers (`#` at a line start), emphasis (`*`), images and links (`[…](…)`), rules (a line of three or more `-`, `*` or `_`), quotes (`&gt; ` at a line start, the escaped `>`), unordered and ordered list items (`* `, `- ` or digits and `. ` at a line start), and any run of `<li>…</li>`, one written in the document included, which line 61 wraps in `<ul>…</ul>`.
- Converter.PlainLineIsParagraph: proved only when the rewrites return the line unchanged. A line such as `# Hello` is rewritten to a header, which is out of reach of the model.
- Converter.AmpersandInParagraph: proved only when the rewrites return the escaped line `a&amp;b` unchanged. Emphasis, code or header markers in `a` or `b` are out of reach of the model.
- Converter.BlankDocument: proved only when the rewrites return the blank document unchanged.
- Converter.EmptyDocument: proved only when the rewrites map the empty text to itself.
- `main.swift`, the window and file handling are not part of this model.
- Swift's `Character` is a grapheme cluster; here it is a single `char`.
- `.whitespaces` is modelled as space and tab, and `.whitespacesAndNewlines` as space, tab, `\n` and `\r`. The other Unicode spaces and line separators in those sets are left out.
- A blank block is not dropped by the paragraph pass. Line 67 returns `""` for it and line 74 still joins it, so each blank block remains as an empty line (`Paragraphs.EmptyBlockKept`, `Converter.BlankDocument`).
- Block-level blocks are emitted trimmed, not as written (line 71; `Paragraphs.BlockPassesThrough`).
- The separator test (lines 90-94) is modelled by its meaning: the characters the line may hold. `TablePass.SeparatorChars` proves that this accepts exactly what `processTables`'s chain of replacements accepts, and the loop runs that chain.
- The `"<"` case of the escaper's `switch` (line 176) is kept as written in `Escaper.Entity`. `Escaper.RunKeepsAngles` shows that it is never reached.
- Converter.PlainLinesAreParagraph: stated only for lines without `&`, `<`, `>` and `|`, because other lines reach the escaper or the table pass. Those passes are covered by their own lemmas. It also assumes the rewrites return the joined lines unchanged, so list items and headers are out of reach.
- TableMarkup.TableSurvivesEscaper: stated only for cells without `<`, because a `<` in a cell opens a tag that swallows the markup after it. That general behaviour is covered by `Escaper.EscapeMatchesSpans`.
- TableDocument.TableDocumentRendered: stated for tables written as `| c1 | … |` rows, with trimmed cells free of `|`, `<` and newlines. Other shapes go through the same scan, which `TablePass.FirstTable` describes in general. It also assumes the rewrites return the table markup unchanged, so cells holding emphasis, code or links are out of reach.
