/**
  * The line-anchored rules (ATX headers, list items, paragraphs) act line by line: scanning
  * the whole text with `preg_replace` is the same as rewriting each line on its own.
  */
module LineRules {
  import opened Text
  import opened Rewrite

  /** The text with each of its lines rewritten by `r`, joined again with line feeds. */
  function MapLines(r: Rule, s: string): string
    decreases |s|
  {
    var e := LineEnd(s, 0);
    if e == |s| then RewriteLine(r, s)
    else RewriteLine(r, s[..e]) + "\n" + MapLines(r, s[e + 1..])
  }

  /** The line that starts at `i` is the first line of the suffix at `i`. */
  lemma LineEndShift(s: string, i: nat)
    requires i <= |s|
    ensures LineEnd(s, i) == i + LineEnd(s[i..], 0)
  {
  }

  /** Inside a line no line-anchored rule starts a match. */
  lemma MidLineQuiet(r: Rule, s: string, i: nat, p: nat)
    requires IsLineRule(r) && i < p < |s| && p <= LineEnd(s, i)
    ensures MatchAt(r, s, p).None?
  {
    assert MatchAt(r, s, p) == LineAt(r, s, p);
    assert s[p - 1] != '\n';
  }

  /** The scan of a line-anchored rule rewrites the line at `i` and then carries on at its end. */
  lemma LineStep(r: Rule, s: string, i: nat)
    requires IsLineRule(r) && i < |s| && AtLineStart(s, i)
    ensures ReplaceFrom(r, s, i) == RewriteLine(r, s[i..LineEnd(s, i)]) + ReplaceFrom(r, s, LineEnd(s, i))
  {
    var e := LineEnd(s, i);
    assert MatchAt(r, s, i) == LineAt(r, s, i);
    forall p | i < p < e
      ensures MatchAt(r, s, p).None?
    {
      MidLineQuiet(r, s, i, p);
    }
    if LineMatches(r, s[i..e]) {
      CopyRun(r, s, e, e);
    } else {
      CopyRun(r, s, i, e);
    }
  }

  /** The line feed at the end of a line is copied. */
  lemma LineFeedStep(r: Rule, s: string, i: nat)
    requires IsLineRule(r) && i < |s| && LineEnd(s, i) < |s|
    ensures ReplaceFrom(r, s, LineEnd(s, i)) == "\n" + ReplaceFrom(r, s, LineEnd(s, i) + 1)
  {
    var e := LineEnd(s, i);
    if e > i {
      MidLineQuiet(r, s, i, e);
    } else {
      EmptyLineQuiet(r, s, e);
    }
    CopyStep(r, s, e);
    assert [s[e]] == "\n";
  }

  /** An empty line matches no line-anchored rule. */
  lemma EmptyLineQuiet(r: Rule, s: string, e: nat)
    requires IsLineRule(r) && e < |s| && s[e] == '\n'
    ensures MatchAt(r, s, e).None?
  {
    assert MatchAt(r, s, e) == LineAt(r, s, e);
    assert LineEnd(s, e) == e;
    assert !LineMatches(r, s[e..e]);
  }

  /** The first line of the suffix at `i`, and the rest. */
  lemma MapLinesStep(r: Rule, s: string, i: nat)
    requires i < |s|
    ensures var e := LineEnd(s, i);
      MapLines(r, s[i..]) ==
        if e == |s| then RewriteLine(r, s[i..e])
        else RewriteLine(r, s[i..e]) + "\n" + MapLines(r, s[e + 1..])
  {
    if LineEnd(s, i) == |s| {
      MapLinesStepLast(r, s, i);
    } else {
      MapLinesStepMore(r, s, i, LineEnd(s, i), s[i..]);
    }
  }

  lemma MapLinesStepLast(r: Rule, s: string, i: nat)
    requires i < |s| && LineEnd(s, i) == |s|
    ensures MapLines(r, s[i..]) == RewriteLine(r, s[i..LineEnd(s, i)])
  {
    LineEndShift(s, i);
    assert s[i..] == s[i..LineEnd(s, i)];
    MapLinesLast(r, s[i..]);
  }

  lemma MapLinesStepMore(r: Rule, s: string, i: nat, e: nat, t: string)
    requires i <= e < |s| && e == LineEnd(s, i) && t == s[i..]
    ensures MapLines(r, t) == RewriteLine(r, s[i..e]) + "\n" + MapLines(r, s[e + 1..])
  {
    SuffixLine(s, i, e, t);
    MapLinesMore(r, t, e - i, s[i..e], s[e + 1..]);
  }

  /** The first line of the suffix at `i`, and what follows its line feed. */
  lemma SuffixLine(s: string, i: nat, e: nat, t: string)
    requires i <= e < |s| && e == LineEnd(s, i) && t == s[i..]
    ensures e - i == LineEnd(t, 0) && t[..e - i] == s[i..e] && t[e - i + 1..] == s[e + 1..]
  {
    LineEndShift(s, i);
  }

  lemma MapLinesLast(r: Rule, t: string)
    requires LineEnd(t, 0) == |t|
    ensures MapLines(r, t) == RewriteLine(r, t)
  {
  }

  lemma MapLinesMore(r: Rule, t: string, k: nat, a: string, b: string)
    requires k == LineEnd(t, 0) && k < |t| && a == t[..k] && b == t[k + 1..]
    ensures MapLines(r, t) == RewriteLine(r, a) + "\n" + MapLines(r, b)
  {
  }

  /** No line, nothing to rewrite. */
  lemma MapLinesEmpty(r: Rule)
    requires IsLineRule(r)
    ensures MapLines(r, "") == ""
  {
    assert LineEnd("", 0) == 0;
    assert !LineMatches(r, "");
  }

  /** From a line start, the scan of a line-anchored rule equals the line-by-line rewrite. */
  lemma {:induction false} ReplaceFromLineStart(r: Rule, s: string, i: nat)
    requires IsLineRule(r) && i <= |s| && AtLineStart(s, i)
    ensures ReplaceFrom(r, s, i) == MapLines(r, s[i..])
    decreases |s| - i
  {
    if i == |s| {
      assert s[i..] == "";
      MapLinesEmpty(r);
    } else if LineEnd(s, i) == |s| {
      LastLineStart(r, s, i);
    } else {
      var e := NextLine(s, i);
      ReplaceFromLineStart(r, s, e + 1);
      NextLineStart(r, s, i);
    }
  }

  /** A line that ends in a line feed is followed by another line start. */
  lemma NextLine(s: string, i: nat) returns (e: nat)
    requires i <= |s| && LineEnd(s, i) < |s|
    ensures e == LineEnd(s, i) && e < |s| && AtLineStart(s, e + 1)
  {
    e := LineEnd(s, i);
  }

  /** The last line: the scan rewrites it and stops. */
  lemma LastLineStart(r: Rule, s: string, i: nat)
    requires IsLineRule(r) && i < |s| && AtLineStart(s, i) && LineEnd(s, i) == |s|
    ensures ReplaceFrom(r, s, i) == MapLines(r, s[i..])
  {
    LineStep(r, s, i);
    MapLinesStepLast(r, s, i);
    assert ReplaceFrom(r, s, |s|) == "";
  }

  /** A line followed by a line feed: rewritten, the feed copied, and the scan goes on. */
  lemma NextLineStart(r: Rule, s: string, i: nat)
    requires IsLineRule(r) && i < |s| && AtLineStart(s, i) && LineEnd(s, i) < |s|
    requires ReplaceFrom(r, s, LineEnd(s, i) + 1) == MapLines(r, s[LineEnd(s, i) + 1..])
    ensures ReplaceFrom(r, s, i) == MapLines(r, s[i..])
  {
    var e := LineEnd(s, i);
    ScanLineAndFeed(r, s, i);
    MapLinesStepMore(r, s, i, e, s[i..]);
    Bridge(ReplaceFrom(r, s, i), MapLines(r, s[i..]), RewriteLine(r, s[i..e]) + "\n",
      ReplaceFrom(r, s, e + 1), MapLines(r, s[e + 1..]));
  }

  /** Two texts with the same head and equal tails are equal. */
  lemma Bridge(x: string, y: string, u: string, v: string, w: string)
    requires x == u + v && y == u + w && v == w
    ensures x == y
  {
  }

  /** A line and the line feed after it: the line rewritten, the feed copied. */
  lemma ScanLineAndFeed(r: Rule, s: string, i: nat)
    requires IsLineRule(r) && i < |s| && AtLineStart(s, i) && LineEnd(s, i) < |s|
    ensures var e := LineEnd(s, i);
      ReplaceFrom(r, s, i) == RewriteLine(r, s[i..e]) + "\n" + ReplaceFrom(r, s, e + 1)
  {
    var e := LineEnd(s, i);
    LineStep(r, s, i);
    LineFeedStep(r, s, i);
    Glue(RewriteLine(r, s[i..e]), ReplaceFrom(r, s, e + 1), ReplaceFrom(r, s, e + 1),
      ReplaceFrom(r, s, i), ReplaceFrom(r, s, e), RewriteLine(r, s[i..e]) + "\n" + ReplaceFrom(r, s, e + 1));
  }

  /** Two equal tails behind the same head. */
  lemma Glue(a: string, b: string, c: string, x: string, y: string, z: string)
    requires x == a + y && y == "\n" + b && z == a + "\n" + c && b == c
    ensures x == z
  {
  }

  /** `preg_replace` with a line-anchored rule rewrites each line on its own. */
  lemma LineRuleIsLineMap(r: Rule, s: string)
    requires IsLineRule(r)
    ensures ReplaceAll(r, s) == MapLines(r, s)
  {
    ReplaceFromLineStart(r, s, 0);
    assert s[0..] == s;
  }

  /** `# T`, `## T` and `### T` become h1, h2 and h3 elements with the marker removed. */
  lemma AtxHeaderLines(t: string)
    requires |t| > 0
    ensures RewriteLine(AtxH1, "# " + t) == "<h1>" + t + "</h1>"
    ensures RewriteLine(AtxH2, "## " + t) == "<h2>" + t + "</h2>"
    ensures RewriteLine(AtxH3, "### " + t) == "<h3>" + t + "</h3>"
  {
    assert ("# " + t)[2..] == t && ("## " + t)[3..] == t && ("### " + t)[4..] == t;
    assert StartsAt("# " + t, 0, "# ") && StartsAt("## " + t, 0, "## ") && StartsAt("### " + t, 0, "### ");
  }

  /** `* T` becomes a list item with the marker removed. */
  lemma ListItemLine(t: string)
    requires |t| > 0
    ensures RewriteLine(ListItem, "* " + t) == "<li>" + t + "</li>"
  {
    assert ("* " + t)[2..] == t;
    assert StartsAt("* " + t, 0, "* ");
  }

  /**
    * A paragraph wraps a line exactly when it has two or more characters and does not start
    * with `<h1`..`<h6`, `<ul` or `<li`; a closing `</ul>` line is wrapped, a one-character line is not.
    */
  lemma ParagraphLines(line: string)
    ensures RewriteLine(Paragraph, line) != line <==> |line| >= 2 && !StartsWithBlockTag(line)
    ensures RewriteLine(Paragraph, line) != line ==> RewriteLine(Paragraph, line) == "<p>" + line + "</p>"
    ensures RewriteLine(Paragraph, "</ul>") == "<p></ul></p>"
    ensures |line| == 1 ==> RewriteLine(Paragraph, line) == line
  {
    assert "</ul>"[..3] == "</u" && "</ul>"[..2] == "</";
  }
}
