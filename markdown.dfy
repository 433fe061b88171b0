/**
  * The Markdown transformer: the text is escaped, then the twelve pattern rewrites and the
  * literal replacement of `<p></p>` run in the order `parseMarkdown` applies them
  * (src/MarkdownParser.php:41-70), and the loader that
  * reads a page and hands it to the transformer (src/MarkdownParser.php:78-97).
  */
module Markdown {
  import opened Wrappers
  import opened Text
  import opened HtmlEscape
  import opened Rewrite
  import opened LineRules
  import opened SpanRules
  import opened MarkupSafety

  /** The rewrites in the order the transformer applies them. */
  const Pipeline: seq<Rule> := [
    SetextH1, SetextH2, AtxH3, AtxH2, AtxH1, ListItem, ListWrap,
    Bold, Italic, Link, Paragraph, StripEmptyParagraphs, CollapseNewlines]

  /** Every rewrite runs, and none runs twice. */
  lemma PipelineOnce()
    ensures forall r: Rule :: r in Pipeline
    ensures forall i, j :: 0 <= i < j < |Pipeline| ==> Pipeline[i] != Pipeline[j]
  {
    forall r: Rule
      ensures r in Pipeline
    {
      var k := match r
        case SetextH1 => 0 case SetextH2 => 1 case AtxH3 => 2 case AtxH2 => 3
        case AtxH1 => 4 case ListItem => 5 case ListWrap => 6 case Bold => 7
        case Italic => 8 case Link => 9 case Paragraph => 10
        case StripEmptyParagraphs => 11 case CollapseNewlines => 12;
      assert Pipeline[k] == r;
    }
  }

  /** The rewrites that run before links are formed. */
  const BeforeLinks: seq<Rule> := Pipeline[..9]

  /**
    * The list rule runs before bold and italic, so two `* ` items become two list items
    * with nothing of them taken as emphasis; see `ItalicOnListItems` for the text the
    * italic rule would make of them on its own.
    */
  lemma ListBeforeEmphasis(a: string, b: string)
    requires |a| > 0 && '*' !in a && '\n' !in a
    requires |b| > 0 && '*' !in b && '\n' !in b
    ensures ApplyAll([ListItem, Bold, Italic], "* " + a + "\n* " + b) == "<li>" + a + "</li>\n<li>" + b + "</li>"
  {
    ListItemsRewrite(a, b);
    StarFreeItems(a, b);
    StarFreeAfterList("* " + a + "\n* " + b, "<li>" + a + "</li>\n<li>" + b + "</li>");
  }

  lemma StarFreeItems(a: string, b: string)
    requires '*' !in a && '*' !in b
    ensures '*' !in "<li>" + a + "</li>\n<li>" + b + "</li>"
  {
  }

  lemma ListItemsRewrite(a: string, b: string)
    requires |a| > 0 && '\n' !in a && |b| > 0 && '\n' !in b
    ensures ReplaceAll(ListItem, "* " + a + "\n* " + b) == "<li>" + a + "</li>\n<li>" + b + "</li>"
  {
    var s := "* " + a + "\n* " + b;
    ListItemsSplit(s, a, b);
    ListItemLine(a);
    ListItemLine(b);
    TwoLines(ListItem, s, |a| + 2, "* " + a, "* " + b, "<li>" + a + "</li>", "<li>" + b + "</li>");
  }

  /** A line rule on a text of two lines rewrites each of them. */
  lemma TwoLines(r: Rule, s: string, k: nat, x: string, y: string, x': string, y': string)
    requires IsLineRule(r) && k == LineEnd(s, 0) && k < |s| && x == s[..k] && y == s[k + 1..]
    requires LineEnd(y, 0) == |y| && RewriteLine(r, x) == x' && RewriteLine(r, y) == y'
    ensures ReplaceAll(r, s) == x' + "\n" + y'
  {
    LineRuleIsLineMap(r, s);
    MapLinesMore(r, s, k, x, y);
    MapLinesLast(r, y);
  }

  /** Bold and italic leave alone what the list rule made when it has no asterisk. */
  lemma StarFreeAfterList(s: string, l: string)
    requires ReplaceAll(ListItem, s) == l && '*' !in l
    ensures ApplyAll([ListItem, Bold, Italic], s) == l
  {
    BoldWithoutStars(l);
    ItalicWithoutStars(l);
    assert ApplyAll([ListItem, Bold, Italic], s) == ApplyAll([Bold, Italic], l);
    assert ApplyAll([Bold, Italic], l) == ApplyAll([Italic], l);
    assert ApplyAll([Italic], l) == ApplyAll([], l);
  }

  lemma ListItemsSplit(s: string, a: string, b: string)
    requires s == "* " + a + "\n* " + b && '\n' !in a && '\n' !in b
    ensures LineEnd(s, 0) == |a| + 2 && s[..|a| + 2] == "* " + a && s[|a| + 3..] == "* " + b
    ensures LineEnd("* " + b, 0) == |"* " + b|
  {
    var k := |a| + 2;
    assert s[k] == '\n';
    assert forall j :: 0 <= j < k ==> s[j] == ("* " + a)[j];
    LineEndIs(s, 0, k);
    assert forall j :: 0 <= j < |"* " + b| ==> ("* " + b)[j] != '\n';
  }

  /**
    * The HTML for a Markdown text. Every `<` in it begins one of the tags the rewrites
    * write, so no markup of the input survives; and no blank line is left.
    */
  function ParseMarkdown(text: string): (html: string)
    ensures Safe(html)
    ensures NoBlankLine(html)
    ensures '>' !in text && '<' !in text && '&' !in text && '"' !in text && '\'' !in text ==>
      html == ApplyAll(Pipeline, text)
  {
    var escaped := Escape(text, Html5);
    SafeWithoutLt(escaped);
    ApplyAllSafe(Pipeline, escaped);
    CollapseLast(escaped);
    PlainTextEscape(text);
    ApplyAll(Pipeline, escaped)
  }

  /** Collapsing blank lines is the last step, so its guarantee holds for the whole pipeline. */
  lemma CollapseLast(t: string)
    ensures NoBlankLine(ApplyAll(Pipeline, t))
  {
    assert Pipeline == Pipeline[..12] + [CollapseNewlines];
    ApplyAllAppend(Pipeline[..12], [CollapseNewlines], t);
    var u := ApplyAll(Pipeline[..12], t);
    CollapseNoBlankLine(u);
    assert ApplyAll([CollapseNewlines], u) == ApplyAll([], ReplaceAll(CollapseNewlines, u));
  }

  /** A text without metacharacters is not changed by the escape. */
  lemma PlainTextEscape(text: string)
    ensures '>' !in text && '<' !in text && '&' !in text && '"' !in text && '\'' !in text ==>
      Escape(text, Html5) == text
  {
    if '>' !in text && '<' !in text && '&' !in text && '"' !in text && '\'' !in text {
      assert NoSpecial(text);
      EscapeKeepsPlainText(text, Html5);
    }
  }

  /** None of the rewrites before the link rule writes a double quote. */
  lemma BeforeLinksQuoteFree()
    ensures forall k :: 0 <= k < |BeforeLinks| ==> '"' !in Template(BeforeLinks[k])
  {
    forall k | 0 <= k < |BeforeLinks| {
      TemplateQuoteFree(BeforeLinks[k]);
    }
  }

  /** Only the link rule's template holds a double quote. */
  lemma TemplateQuoteFree(r: Rule)
    requires !r.Link?
    ensures '"' !in Template(r)
  {
    match r
    case SetextH1 =>
    case SetextH2 =>
    case AtxH3 =>
    case AtxH2 =>
    case AtxH1 =>
    case ListItem =>
    case ListWrap =>
    case Bold =>
    case Italic =>
    case Paragraph =>
    case StripEmptyParagraphs =>
    case CollapseNewlines =>
  }

  /** The captures of a link are pieces of the subject, so they lack what it lacks. */
  lemma LinkCapturesAbsent(s: string, i: nat, c: char)
    requires i < |s| && LinkAt(s, i).Some? && c !in s
    ensures c !in LinkAt(s, i).value.href && c !in LinkAt(s, i).value.text
  {
  }

  /**
    * The escape removes every double quote of the input and no rewrite before the link rule
    * writes one; so the text the link rule reads has none, and no link target can close the
    * `href` attribute it is written into.
    */
  lemma LinkTargetsQuoteFree(text: string)
    ensures var s := ApplyAll(BeforeLinks, Escape(text, Html5));
      '"' !in s &&
      forall i :: 0 <= i < |s| && LinkAt(s, i).Some? ==>
        '"' !in LinkAt(s, i).value.href && '"' !in LinkAt(s, i).value.text
  {
    var s := ApplyAll(BeforeLinks, Escape(text, Html5));
    BeforeLinksQuoteFree();
    ApplyAllAbsent(BeforeLinks, Escape(text, Html5), '"');
    forall i | 0 <= i < |s| && LinkAt(s, i).Some?
      ensures '"' !in LinkAt(s, i).value.href && '"' !in LinkAt(s, i).value.text
    {
      LinkCapturesAbsent(s, i, '"');
    }
  }

  /** The characters of an ordinary sentence: letters, digits, space, comma and full stop. */
  predicate PlainChar(c: char) {
    ('a' <= c <= 'z') || ('A' <= c <= 'Z') || ('0' <= c <= '9') || c == ' ' || c == ',' || c == '.'
  }

  predicate PlainLine(t: string) {
    forall k :: 0 <= k < |t| ==> PlainChar(t[k])
  }

  /** No rewrite other than the paragraph rule finds anything in a plain line. */
  lemma PlainQuiet(r: Rule, t: string, p: nat)
    requires PlainLine(t) && p < |t| && !r.Paragraph?
    ensures MatchAt(r, t, p).None?
  {
    if p > 0 {
      QuietPosition(r, t, p);
    } else {
      assert LineEnd(t, 0) == |t|;
      if StartsAt(t, 0, "# ") { StartsAtHead(t, 0, "# "); }
      if StartsAt(t, 0, "## ") { StartsAtHead(t, 0, "## "); }
      if StartsAt(t, 0, "### ") { StartsAtHead(t, 0, "### "); }
      if StartsAt(t, 0, "* ") { StartsAtHead(t, 0, "* "); }
      if StartsAt(t, 0, "\n<li>") { StartsAtHead(t, 0, "\n<li>"); }
      if StartsAt(t, 0, "**") { StartsAtHead(t, 0, "**"); }
      if StartsAt(t, 0, "<p></p>") { StartsAtHead(t, 0, "<p></p>"); }
      assert t[0..|t|] == t;
    }
  }

  /** Rules that find nothing leave the text as it is. */
  lemma {:induction false} ApplyAllQuiet(rules: seq<Rule>, t: string)
    requires forall k :: 0 <= k < |rules| ==> ReplaceAll(rules[k], t) == t
    ensures ApplyAll(rules, t) == t
    decreases |rules|
  {
    if rules != [] {
      assert ReplaceAll(rules[0], t) == t;
      ApplyAllQuiet(rules[1..], t);
    }
  }

  /** A plain line comes through the rules before the paragraph rule unchanged. */
  lemma PlainBeforeParagraph(t: string)
    requires PlainLine(t)
    ensures ApplyAll(Pipeline[..10], t) == t
  {
    forall k | 0 <= k < 10
      ensures ReplaceAll(Pipeline[..10][k], t) == t
    {
      var r := Pipeline[..10][k];
      forall p | 0 <= p < |t|
        ensures MatchAt(r, t, p).None?
      {
        PlainQuiet(r, t, p);
      }
      NoMatchUnchanged(r, t);
    }
    ApplyAllQuiet(Pipeline[..10], t);
  }

  /** The paragraph element of a plain line has no `<p></p>` in it. */
  lemma ParagraphNoEmpty(t: string)
    requires PlainLine(t) && |t| >= 2
    ensures ReplaceAll(StripEmptyParagraphs, "<p>" + t + "</p>") == "<p>" + t + "</p>"
  {
    var h := "<p>" + t + "</p>";
    forall p | 0 <= p < |h|
      ensures MatchAt(StripEmptyParagraphs, h, p).None?
    {
      if p == 0 {
        assert h[0..7][3] == t[0];
      } else if p < 3 {
        NotStartsAt(h, p, "<p></p>");
      } else if p < |t| + 3 {
        assert h[p] == t[p - 3];
        NotStartsAt(h, p, "<p></p>");
      }
    }
    NoMatchUnchanged(StripEmptyParagraphs, h);
  }

  /** The paragraph element of a plain line has no line feed in it. */
  lemma ParagraphNoFeed(t: string)
    requires PlainLine(t)
    ensures ReplaceAll(CollapseNewlines, "<p>" + t + "</p>") == "<p>" + t + "</p>"
  {
    var h := "<p>" + t + "</p>";
    forall p | 0 <= p < |h|
      ensures MatchAt(CollapseNewlines, h, p).None?
    {
      if 3 <= p < |t| + 3 {
        assert h[p] == t[p - 3];
      }
    }
    NoMatchUnchanged(CollapseNewlines, h);
  }

  /** The last two rules keep the paragraph element of a plain line. */
  lemma ParagraphSettled(t: string)
    requires PlainLine(t) && |t| >= 2
    ensures ApplyAll(Pipeline[11..], "<p>" + t + "</p>") == "<p>" + t + "</p>"
  {
    var h := "<p>" + t + "</p>";
    ParagraphNoEmpty(t);
    ParagraphNoFeed(t);
    assert Pipeline[11..] == [StripEmptyParagraphs, CollapseNewlines];
    ApplyAllQuiet(Pipeline[11..], h);
  }

  /** The paragraph rule wraps a plain line. */
  lemma PlainParagraphRule(t: string)
    requires PlainLine(t) && |t| >= 2
    ensures ApplyAll([Paragraph], t) == "<p>" + t + "</p>"
  {
    assert ApplyAll([Paragraph], t) == ApplyAll([], ReplaceAll(Paragraph, t));
    PlainSingleLine(t);
    assert !StartsWithBlockTag(t) by {
      assert t[0] != '<';
      NotStartsAt(t, 0, "<ul");
      NotStartsAt(t, 0, "<li");
      NotStartsAt(t, 0, "<h");
    }
    assert LineMatches(Paragraph, t);
  }

  /** A plain line is one line, so the paragraph rule rewrites it as a whole. */
  lemma PlainSingleLine(t: string)
    requires PlainLine(t)
    ensures ReplaceAll(Paragraph, t) == RewriteLine(Paragraph, t)
  {
    LineRuleIsLineMap(Paragraph, t);
    assert LineEnd(t, 0) == |t|;
  }

  /** The pipeline in three parts: before paragraphs, paragraphs, after paragraphs. */
  lemma PipelineSplit(t: string)
    ensures ApplyAll(Pipeline, t) == ApplyAll(Pipeline[11..], ApplyAll([Paragraph], ApplyAll(Pipeline[..10], t)))
  {
    assert Pipeline == Pipeline[..10] + [Paragraph] + Pipeline[11..];
    ApplyAllAppend(Pipeline[..10] + [Paragraph], Pipeline[11..], t);
    ApplyAllAppend(Pipeline[..10], [Paragraph], t);
  }

  /** A plain line of two or more characters becomes one paragraph. */
  lemma PlainLineParagraph(t: string)
    requires PlainLine(t) && |t| >= 2
    ensures ParseMarkdown(t) == "<p>" + t + "</p>"
  {
    assert NoSpecial(t);
    EscapeKeepsPlainText(t, Html5);
    PipelineSplit(t);
    PlainBeforeParagraph(t);
    PlainParagraphRule(t);
    ParagraphSettled(t);
  }

  /** What the loader does: emit a page, or stop with the message the error page shows. */
  datatype Outcome = Page(title: string, html: string) | Halted(message: string)

  /** The position just after the last `c` before `hi`, or 0. */
  function AfterLast(s: string, hi: nat, c: char): (k: nat)
    requires hi <= |s|
    ensures k <= hi && (k == 0 || s[k - 1] == c)
    ensures forall m :: k <= m < hi ==> s[m] != c
  {
    if hi == 0 then 0 else if s[hi - 1] == c then hi else AfterLast(s, hi - 1, c)
  }

  /** The position after the last `c` is determined by the two facts that characterize it. */
  lemma {:induction false} AfterLastIs(s: string, hi: nat, c: char, k: nat)
    requires k <= hi <= |s| && (k == 0 || s[k - 1] == c)
    requires forall m :: k <= m < hi ==> s[m] != c
    ensures AfterLast(s, hi, c) == k
    decreases hi
  {
    if hi > k {
      AfterLastIs(s, hi - 1, c, k);
    }
  }

  /** `pathinfo($path, PATHINFO_FILENAME)`: the last path component without its last extension. */
  function FileTitle(path: string): (title: string)
    ensures '/' !in title
  {
    var b := AfterLast(path, |path|, '/');
    var base := path[b..];
    var d := AfterLast(base, |base|, '.');
    if d == 0 then base else base[..d - 1]
  }

  /**
    * `loadMarkdownPage`: a missing file or content that is not UTF-8 stops with the error
    * page; otherwise the page is the parsed content and its title the file name. `file` is
    * the file's content, or `None` when there is no such file; `validUtf8` is the outcome
    * of the encoding check.
    */
  function LoadMarkdownPage(path: string, file: Option<string>, validUtf8: bool): (o: Outcome)
    ensures file.None? <==> o == Halted("Markdown file not found: " + path)
    ensures file.Some? && !validUtf8 <==> o == Halted("Invalid UTF-8 encoding in file")
    ensures o.Page? <==> file.Some? && validUtf8
    ensures o.Page? ==> o.html == ParseMarkdown(file.value) && o.title == FileTitle(path)
  {
    assert ("Markdown file not found: " + path)[0] != "Invalid UTF-8 encoding in file"[0];
    match file
    case None => Halted("Markdown file not found: " + path)
    case Some(content) =>
      if !validUtf8 then Halted("Invalid UTF-8 encoding in file")
      else Page(FileTitle(path), ParseMarkdown(content))
  }

  /** The title of `docs/guide.v2.md` is `guide.v2`. */
  lemma FileTitleExample()
    ensures FileTitle("docs/guide.v2.md") == "guide.v2"
    ensures FileTitle("README") == "README"
  {
    var p := "docs/guide.v2.md";
    AfterLastIs(p, |p|, '/', 5);
    var base := p[5..];
    assert base == "guide.v2.md";
    AfterLastIs(base, |base|, '.', 9);
    AfterLastIs("README", 6, '/', 0);
    AfterLastIs("README", 6, '.', 0);
  }
}
