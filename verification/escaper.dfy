/** The tag-aware escaper `escapeHTMLOutsideTags`: one left-to-right scan with
    a single flag that says whether the scan is inside a tag. Outside a tag
    `&` and `>` are replaced by entities; a `<` always opens a tag, and
    everything up to and including the next `>` is copied verbatim. */
module Escaper {
  import Text

  /** The scanner's flag `inTag` as a two-state machine. */
  datatype ScanState = Outside | InsideTag

  /** What the scan appends for `c` when it meets it outside a tag. The
      `'<'` case is kept as `escapeHTMLOutsideTags` writes it; `Step` never
      reaches it. */
  function Entity(c: char): string {
    match c
    case '&' => "&amp;"
    case '<' => "&lt;"
    case '>' => "&gt;"
    case _ => [c]
  }

  /** One iteration of the scan: the state after `c`, and the text appended for it. */
  function Step(st: ScanState, c: char): (ScanState, string) {
    if c == '<' && st == Outside then (InsideTag, [c])
    else if c == '>' && st == InsideTag then (Outside, [c])
    else if st == InsideTag then (InsideTag, [c])
    else (Outside, Entity(c))
  }

  /** The text the scan appends for `s` when it starts in state `st`; it is
      never shorter than `s`. */
  function Run(st: ScanState, s: string): (out: string)
    ensures |out| >= |s|
    decreases |s|
  {
    if |s| == 0 then []
    else
      var next := Step(st, s[0]);
      next.1 + Run(next.0, s[1..])
  }

  /** Every `<` of the input comes out as a literal `<`: none is turned into
      `&lt;` and none is invented. */
  lemma {:induction false} RunKeepsAngles(st: ScanState, s: string)
    ensures multiset(Run(st, s))['<'] == multiset(s)['<']
    decreases |s|
  {
    if |s| > 0 {
      var next := Step(st, s[0]);
      RunKeepsAngles(next.0, s[1..]);
      StepKeepsAngles(st, s[0]);
      AnglesSplit(st, s);
    }
  }

  /** The `<`s of a scan are those of its first step and of the rest, and
      the same holds of its input. */
  lemma AnglesSplit(st: ScanState, s: string)
    requires |s| > 0
    ensures multiset(Run(st, s))['<'] == multiset(Step(st, s[0]).1)['<'] + multiset(Run(Step(st, s[0]).0, s[1..]))['<']
    ensures multiset(s)['<'] == multiset([s[0]])['<'] + multiset(s[1..])['<']
  {
    assert s == [s[0]] + s[1..];
  }

  lemma StepKeepsAngles(st: ScanState, c: char)
    ensures multiset(Step(st, c).1)['<'] == multiset([c])['<']
  {
    if st == Outside && c != '<' {
      assert '<' !in Entity(c);
    }
  }

  /** The state the scan is in after reading `s` from state `st`. */
  function Final(st: ScanState, s: string): ScanState
    decreases |s|
  {
    if |s| == 0 then st else Final(Step(st, s[0]).0, s[1..])
  }

  /** `escapeHTMLOutsideTags` as a fold: the scan starts outside any tag. */
  function EscapeOutsideTags(text: string): string {
    Run(Outside, text)
  }

  /** `escapeHTMLOutsideTags`'s loop, with the Boolean flag and the `switch` it uses. */
  method EscapeHTMLOutsideTags(text: string) returns (result: string)
    ensures result == EscapeOutsideTags(text)
    ensures |result| >= |text|
  {
    result := "";
    var inTag := false;
    for i := 0 to |text|
      invariant result + Run(if inTag then InsideTag else Outside, text[i..]) == Run(Outside, text)
    {
      var c := text[i];
      ghost var st := if inTag then InsideTag else Outside;
      ghost var next := Step(st, c);
      RunAt(st, text, i);
      var piece: string;
      if c == '<' && !inTag {
        inTag := true;
        piece := [c];
      } else if c == '>' && inTag {
        inTag := false;
        piece := [c];
      } else if inTag {
        piece := [c];
      } else {
        match c
        case '&' => piece := "&amp;";
        case '<' => piece := "&lt;";
        case '>' => piece := "&gt;";
        case _ => piece := [c];
      }
      assert piece == next.1 && (if inTag then InsideTag else Outside) == next.0;
      Text.AppendAssoc(result, piece, Run(next.0, text[i + 1..]));
      result := result + piece;
    }
  }

  /** The scan from position `i` is one step followed by the scan from `i + 1`. */
  lemma RunAt(st: ScanState, text: string, i: nat)
    requires i < |text|
    ensures Run(st, text[i..]) == Step(st, text[i]).1 + Run(Step(st, text[i]).0, text[i + 1..])
  {
    assert text[i..][0] == text[i] && text[i..][1..] == text[i + 1..];
  }

  /** Entity substitution applied to every character, with no notion of tags. */
  function EscapeEntities(s: string): string
    decreases |s|
  {
    if |s| == 0 then [] else Entity(s[0]) + EscapeEntities(s[1..])
  }

  /** Index of the first `>` in `s`, or `|s|` when there is none. */
  function CloseIndex(s: string): (k: nat)
    ensures k <= |s|
    ensures forall j :: 0 <= j < k ==> s[j] != '>'
    ensures k < |s| ==> s[k] == '>'
    decreases |s|
  {
    if |s| == 0 || s[0] == '>' then 0 else 1 + CloseIndex(s[1..])
  }

  /** An independent reading of the escaper by spans: a span from a `<` to the
      next `>` (or to the end of the text) is copied as it is, and every
      character between spans is replaced by its entity. */
  function EscapeBySpans(s: string): string
    decreases |s|
  {
    if |s| == 0 then []
    else if s[0] == '<' then
      var k := CloseIndex(s[1..]);
      if k == |s| - 1 then s else s[..k + 2] + EscapeBySpans(s[k + 2..])
    else Entity(s[0]) + EscapeBySpans(s[1..])
  }

  /** Inside a tag the scan copies up to and including the next `>` and then
      continues outside; with no `>` left it copies the rest. */
  lemma {:induction false} InsideTagCopies(t: string)
    ensures var k := CloseIndex(t);
      Run(InsideTag, t) == if k == |t| then t else t[..k + 1] + Run(Outside, t[k + 1..])
    decreases |t|
  {
    if |t| > 0 && t[0] != '>' {
      var u := t[1..];
      InsideTagCopies(u);
      var k := CloseIndex(u);
      assert CloseIndex(t) == k + 1;
      assert Run(InsideTag, t) == [t[0]] + Run(InsideTag, u);
      if k == |u| {
        assert [t[0]] + u == t;
      } else {
        assert t[..k + 2] == [t[0]] + u[..k + 1];
        assert t[k + 2..] == u[k + 1..];
        Text.AppendAssoc([t[0]], u[..k + 1], Run(Outside, u[k + 1..]));
      }
    }
  }

  /** The state machine and the span reading agree on every text. */
  lemma {:induction false} EscapeMatchesSpans(s: string)
    ensures EscapeOutsideTags(s) == EscapeBySpans(s)
    decreases |s|
  {
    if |s| > 0 {
      if s[0] == '<' {
        var t := s[1..];
        InsideTagCopies(t);
        var k := CloseIndex(t);
        assert s == [s[0]] + t;
        if k < |t| {
          assert s[..k + 2] == [s[0]] + t[..k + 1];
          assert s[k + 2..] == t[k + 1..];
          EscapeMatchesSpans(s[k + 2..]);
        }
      } else {
        EscapeMatchesSpans(s[1..]);
      }
    }
  }

  /** Text without `<` never enters a tag: every `&` becomes `&amp;`, every `>`
      becomes `&gt;`, every other character is copied, and the scan ends
      outside a tag. */
  lemma {:induction false} EscapeWithoutTags(s: string)
    requires '<' !in s
    ensures EscapeOutsideTags(s) == EscapeEntities(s)
    ensures Final(Outside, s) == Outside
    decreases |s|
  {
    if |s| > 0 {
      assert s == [s[0]] + s[1..];
      EscapeWithoutTags(s[1..]);
    }
  }

  /** Text without `&`, `<` and `>` comes out unchanged. */
  lemma {:induction false} PlainTextUnchanged(s: string)
    requires '&' !in s && '<' !in s && '>' !in s
    ensures EscapeOutsideTags(s) == s
    ensures Final(Outside, s) == Outside
    decreases |s|
  {
    if |s| > 0 {
      assert s == [s[0]] + s[1..];
      PlainTextUnchanged(s[1..]);
    }
  }

  /** The scan of a concatenation is the scan of the first part followed by
      the scan of the second from the state the first part left. */
  lemma {:induction false} RunAppend(st: ScanState, a: string, b: string)
    ensures Run(st, a + b) == Run(st, a) + Run(Final(st, a), b)
    decreases |a|
  {
    if |a| > 0 {
      var next := Step(st, a[0]);
      assert (a + b)[0] == a[0];
      assert (a + b)[1..] == a[1..] + b;
      RunAppend(next.0, a[1..], b);
      calc {
        Run(st, a + b);
        next.1 + Run(next.0, a[1..] + b);
        next.1 + (Run(next.0, a[1..]) + Run(Final(next.0, a[1..]), b));
        (next.1 + Run(next.0, a[1..])) + Run(Final(next.0, a[1..]), b);
        Run(st, a) + Run(Final(st, a), b);
      }
    } else {
      assert a + b == b;
    }
  }

  /** A tag written from outside — `<`, a body without `>`, then `>` — is
      copied verbatim, and the scan resumes outside after it. */
  lemma TagSurvives(body: string, rest: string)
    requires '>' !in body
    ensures EscapeOutsideTags("<" + body + ">" + rest) == "<" + body + ">" + EscapeOutsideTags(rest)
  {
    var t := body + ">" + rest;
    calc {
      EscapeOutsideTags("<" + body + ">" + rest);
    == { assert "<" + body + ">" + rest == ['<'] + t; }
      Run(Outside, ['<'] + t);
    == { OpenTag(t); }
      "<" + Run(InsideTag, t);
    == { CloseAfter(body, rest); InsideTagCopies(t); TagParts(body, rest); }
      "<" + ((body + ">") + Run(Outside, rest));
    == { Text.AppendAssoc("<", body + ">", Run(Outside, rest)); }
      "<" + body + ">" + EscapeOutsideTags(rest);
    }
  }

  /** A `<` that no `>` follows opens a tag that never closes: whatever text
      comes before it, the `<` and the rest of the text are copied as they
      are, an `&` in them included. */
  lemma UnclosedTagCopied(p: string, s: string)
    requires '>' !in s
    ensures EscapeOutsideTags(p + "<" + s) == EscapeOutsideTags(p) + "<" + s
  {
    assert p + "<" + s == p + ("<" + s);
    RunAppend(Outside, p, "<" + s);
    UnclosedFromEither(Final(Outside, p), s);
  }

  /** From either state, a `<` followed by text without `>` is copied. */
  lemma UnclosedFromEither(st: ScanState, s: string)
    requires '>' !in s
    ensures Run(st, "<" + s) == "<" + s
  {
    assert ("<" + s)[0] == '<' && ("<" + s)[1..] == s;
    assert Step(st, '<') == (InsideTag, "<");
    NoClose(s);
    InsideTagCopies(s);
  }

  /** Without a `>` the close index is the end of the text. */
  lemma {:induction false} NoClose(s: string)
    requires '>' !in s
    ensures CloseIndex(s) == |s|
    decreases |s|
  {
    if |s| > 0 {
      assert s[0] in s;
      assert '>' !in s[1..] by {
        assert forall i :: 0 <= i < |s[1..]| ==> s[1..][i] == s[i + 1];
      }
      NoClose(s[1..]);
    }
  }

  /** A `<` read outside a tag is copied and opens a tag. */
  lemma OpenTag(t: string)
    ensures Run(Outside, ['<'] + t) == "<" + Run(InsideTag, t)
  {
    assert (['<'] + t)[0] == '<' && (['<'] + t)[1..] == t;
  }

  /** The first `>` of `body + ">" + rest` is the one after `body`. */
  lemma {:induction false} CloseAfter(body: string, rest: string)
    requires '>' !in body
    ensures CloseIndex(body + ">" + rest) == |body|
    decreases |body|
  {
    var t := body + ">" + rest;
    if |body| == 0 {
      assert t[0] == '>';
    } else {
      assert t[0] == body[0] && body[0] in body;
      assert t[1..] == body[1..] + ">" + rest;
      CloseAfter(body[1..], rest);
    }
  }

  /** The pieces of `body + ">" + rest` around its first `>`. */
  lemma TagParts(body: string, rest: string)
    ensures var t := body + ">" + rest;
      t[..|body| + 1] == body + ">" && t[|body| + 1..] == rest
  {
  }

  /** An `&` between two pieces of plain text is escaped and the text around
      it is kept, as in `"foo & bar"` becoming `"foo &amp; bar"`. */
  lemma AmpersandBetweenPlainText(a: string, b: string)
    requires '&' !in a && '<' !in a && '>' !in a
    requires '&' !in b && '<' !in b && '>' !in b
    ensures EscapeOutsideTags(a + "&" + b) == a + "&amp;" + b
  {
    PlainTextUnchanged(a);
    PlainTextUnchanged(b);
    RunAppend(Outside, a, "&" + b);
    assert a + "&" + b == a + ("&" + b);
    assert ("&" + b)[0] == '&' && ("&" + b)[1..] == b;
  }

  /** The tag `<name>`. */
  function Tag(name: string): string {
    "<" + name + ">"
  }

  /** A tag after text that leaves the scan outside a tag is copied verbatim. */
  lemma TagAfter(x: string, name: string)
    requires '>' !in name && Final(Outside, x) == Outside
    ensures EscapeOutsideTags(x + Tag(name)) == EscapeOutsideTags(x) + Tag(name)
  {
    RunAppend(Outside, x, Tag(name));
    TagSurvives(name, "");
    assert Tag(name) + "" == Tag(name);
    assert "<" + name + ">" + "" == Tag(name);
  }

  /** Tags around text survive while an `&` between them is escaped, as in
      `"<table>content & more</table>"` becoming
      `"<table>content &amp; more</table>"`. */
  lemma TagsSurviveAroundAmpersand(name: string, a: string, b: string)
    requires '>' !in name
    requires '&' !in a && '<' !in a && '>' !in a
    requires '&' !in b && '<' !in b && '>' !in b
    ensures EscapeOutsideTags(Tag(name) + (a + "&" + b) + Tag("/" + name))
         == Tag(name) + (a + "&amp;" + b) + Tag("/" + name)
  {
    var inner := a + "&" + b;
    var close := Tag("/" + name);
    AmpersandBetweenPlainText(a, b);
    assert Final(Outside, inner) == Outside by {
      PlainTextUnchanged(a);
      PlainTextUnchanged(b);
      assert inner == a + "&" + b;
      FinalAppend(Outside, a + "&", b);
      FinalAppend(Outside, a, "&");
    }
    TagAfter(inner, "/" + name);
    TagSurvives(name, inner + close);
    assert Tag(name) + inner + close == "<" + name + ">" + (inner + close);
    assert Tag(name) + (a + "&amp;" + b) + close == "<" + name + ">" + ((a + "&amp;" + b) + close);
  }

  /** Markup written in the document is copied as it is, whatever the tag:
      `"<script>alert('xss')</script>"` passes through unescaped. */
  lemma WrittenMarkupSurvives(name: string, a: string)
    requires '>' !in name
    requires '&' !in a && '<' !in a && '>' !in a
    ensures EscapeOutsideTags(Tag(name) + a + Tag("/" + name)) == Tag(name) + a + Tag("/" + name)
  {
    var close := Tag("/" + name);
    PlainTextUnchanged(a);
    TagAfter(a, "/" + name);
    TagSurvives(name, a + close);
    assert Tag(name) + a + close == "<" + name + ">" + (a + close);
  }

  /** The scan from outside turns `s` into `t` and ends outside a tag, so
      what follows `s` is scanned as if `s` were not there. */
  predicate EscapesTo(s: string, t: string) {
    EscapeOutsideTags(s) == t && Final(Outside, s) == Outside
  }

  /** Pieces that each end outside a tag are escaped piece by piece. */
  lemma EscapesToAppend(a: string, a': string, b: string, b': string)
    requires EscapesTo(a, a') && EscapesTo(b, b')
    ensures EscapesTo(a + b, a' + b')
  {
    RunAppend(Outside, a, b);
    FinalAppend(Outside, a, b);
  }

  /** A tag is copied and closes again. */
  lemma TagEscapesTo(name: string)
    requires '>' !in name
    ensures EscapesTo(Tag(name), Tag(name))
  {
    TagAfter("", name);
    assert "" + Tag(name) == Tag(name);
    InsideName(name);
    FinalAppend(Outside, "<", name + ">");
    FinalAppend(InsideTag, name, ">");
    assert "<" + (name + ">") == Tag(name);
  }

  /** Inside a tag, a name without `>` leaves the scan inside. */
  lemma {:induction false} InsideName(name: string)
    requires '>' !in name
    ensures Final(InsideTag, name) == InsideTag
    decreases |name|
  {
    if |name| > 0 {
      assert name[0] in name;
      assert forall x :: x in name[1..] ==> x in name;
      InsideName(name[1..]);
    }
  }

  /** Text without `<` has its entities replaced and ends outside a tag. */
  lemma TextEscapesTo(s: string)
    requires '<' !in s
    ensures EscapesTo(s, EscapeEntities(s))
  {
    EscapeWithoutTags(s);
  }

  /** The state after a concatenation is reached through the state after its first part. */
  lemma {:induction false} FinalAppend(st: ScanState, a: string, b: string)
    ensures Final(st, a + b) == Final(Final(st, a), b)
    decreases |a|
  {
    if |a| > 0 {
      assert (a + b)[0] == a[0];
      assert (a + b)[1..] == a[1..] + b;
      FinalAppend(Step(st, a[0]).0, a[1..], b);
    } else {
      assert a + b == b;
    }
  }
}
