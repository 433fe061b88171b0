/**
  * The rewriting rules of the Markdown transformer, and `preg_replace` itself: a scan from left
  * to right that, at each position, either replaces the match of the rule's pattern that starts
  * there and resumes after it, or copies one character. Matches are decided on the subject as it
  * was before the call, as PCRE does. Each pattern is decided by a hand-written matcher that
  * follows PCRE's greedy, lazy and backtracking choices for that pattern.
  */
module Rewrite {
  import opened Wrappers
  import opened Text

  /** The rewrites of the transformer, one per pattern (src/MarkdownParser.php:46-64). */
  datatype Rule =
    | SetextH1              // a line underlined with `=` becomes a level-one header
    | SetextH2              // a line underlined with `-` becomes a level-two header
    | AtxH3                 // a line starting `### `
    | AtxH2                 // a line starting `## `
    | AtxH1                 // a line starting `# `
    | ListItem              // a line starting `* `
    | ListWrap              // one `<ul>` around the span of list items
    | Bold                  // `**...**`, shortest body, may span lines
    | Italic                // `*...*`, shortest body, may span lines
    | Link                  // `[text](url)`
    | Paragraph             // a line of two or more characters not starting with a block tag
    | StripEmptyParagraphs  // the literal `<p></p>` is deleted (`str_replace`)
    | CollapseNewlines      // a run of line feeds becomes one

  /** A match: where it ends (exclusive) and what replaces it. */
  datatype Hit = Hit(end: nat, out: string)

  /** The rules anchored to whole lines: `^marker(.+)$` and the paragraph rule. */
  predicate IsLineRule(r: Rule) {
    r.AtxH3? || r.AtxH2? || r.AtxH1? || r.ListItem? || r.Paragraph?
  }

  /** The line marker that an ATX header or list item rule strips. */
  function Marker(r: Rule): string
    requires IsLineRule(r) && !r.Paragraph?
  {
    match r
    case AtxH3 => "### "
    case AtxH2 => "## "
    case AtxH1 => "# "
    case ListItem => "* "
  }

  /** The opening tag a rule writes around its capture. */
  function Open(r: Rule): string {
    match r
    case SetextH1 => "<h1>"
    case SetextH2 => "<h2>"
    case AtxH3 => "<h3>"
    case AtxH2 => "<h2>"
    case AtxH1 => "<h1>"
    case ListItem => "<li>"
    case Bold => "<strong>"
    case Italic => "<em>"
    case Paragraph => "<p>"
    case _ => ""
  }

  /** The closing tag a rule writes around its capture. */
  function Close(r: Rule): string {
    match r
    case SetextH1 => "</h1>"
    case SetextH2 => "</h2>"
    case AtxH3 => "</h3>"
    case AtxH2 => "</h2>"
    case AtxH1 => "</h1>"
    case ListItem => "</li>"
    case Bold => "</strong>"
    case Italic => "</em>"
    case Paragraph => "</p>"
    case _ => ""
  }

  /** The paragraph rule's negative lookahead: the line starts `<h1`..`<h6`, `<ul` or `<li`. */
  predicate StartsWithBlockTag(line: string) {
    StartsAt(line, 0, "<ul") || StartsAt(line, 0, "<li") ||
    (StartsAt(line, 0, "<h") && |line| > 2 && '1' <= line[2] <= '6')
  }

  /** Whether a line-anchored rule rewrites the line `line` (the text between two line feeds). */
  predicate LineMatches(r: Rule, line: string)
    ensures LineMatches(r, line) ==> IsLineRule(r) && |line| >= 2
  {
    if r.Paragraph? then |line| >= 2 && !StartsWithBlockTag(line)
    else IsLineRule(r) && |line| > |Marker(r)| && StartsAt(line, 0, Marker(r))
  }

  /** The replacement of a matched line. */
  function LineOut(r: Rule, line: string): (o: string)
    requires LineMatches(r, line)
  {
    if r.Paragraph? then "<p>" + line + "</p>"
    else Open(r) + line[|Marker(r)|..] + Close(r)
  }

  /**
    * The replacement of a matched line is the rule's tags around a non-empty capture, and
    * the capture is the end of the line: all of it for a paragraph, the part after the
    * marker for the other line rules.
    */
  lemma LineOutCapture(r: Rule, line: string)
    requires LineMatches(r, line)
    ensures var o := LineOut(r, line);
      |Open(r)| + |Close(r)| < |o| <= |Open(r)| + |line| + |Close(r)| &&
      o[..|Open(r)|] == Open(r) && o[|o| - |Close(r)|..] == Close(r) &&
      o[|Open(r)|..|o| - |Close(r)|] == line[|line| - (|o| - |Open(r)| - |Close(r)|)..]
    ensures |LineOut(r, line)| == |Open(r)| + |line| + |Close(r)| - (if r.Paragraph? then 0 else |Marker(r)|)
  {
  }

  /** What a line-anchored rule makes of one line. */
  function RewriteLine(r: Rule, line: string): string {
    if LineMatches(r, line) then LineOut(r, line) else line
  }

  /** A line-anchored rule: it matches the whole line that starts at `i`, or nothing. */
  function LineAt(r: Rule, s: string, i: nat): Option<Hit>
    requires i < |s|
  {
    if !AtLineStart(s, i) then None
    else
      var e := LineEnd(s, i);
      if LineMatches(r, s[i..e]) then Some(Hit(e, LineOut(r, s[i..e]))) else None
  }

  /**
    * The underline header rules: a non-empty line, a line feed, a run of `c`, then white
    * space up to the end of a line. The white space run is greedy and backs off to the last
    * point where the text ends or a line feed follows, so blank lines after the underline
    * are swallowed too.
    */
  function SetextAt(s: string, i: nat, c: char, open: string, close: string): (h: Option<Hit>)
    requires i < |s|
    ensures h.Some? ==> AtLineStart(s, i) && i < LineEnd(s, i) && LineEnd(s, i) + 1 < h.value.end <= |s|
    ensures h.Some? ==> s[LineEnd(s, i) + 1] == c && (h.value.end == |s| || s[h.value.end] == '\n')
    ensures h.Some? ==> h.value.out == open + s[i..LineEnd(s, i)] + close
  {
    if !AtLineStart(s, i) then None
    else
      var e := LineEnd(s, i);
      if e == i || e == |s| then None
      else
        var q := RunEnd(s, e + 1, c);
        if q == e + 1 then None
        else
          var w := SpaceRunEnd(s, q);
          var t := if w == |s| then Some(w) else LastBelow(s, q, w, "\n");
          match t
          case None => None
          case Some(t) => Some(Hit(t, open + s[i..e] + close))
  }

  /** The list wrap: `\n<li>`, then (greedy, across lines) up to the LAST `</li>\n`. */
  function WrapAt(s: string, i: nat): (h: Option<Hit>)
    ensures h.Some? ==> StartsAt(s, i, "\n<li>") && i + 5 <= h.value.end - 6 && StartsAt(s, h.value.end - 6, "</li>\n")
    ensures h.Some? ==> forall k :: h.value.end - 6 < k < |s| ==> !StartsAt(s, k, "</li>\n")
    ensures h.Some? ==> h.value.out == "\n<ul>\n" + s[i..h.value.end] + "</ul>\n"
    ensures h.None? ==> !StartsAt(s, i, "\n<li>") || forall k :: i + 5 <= k < |s| ==> !StartsAt(s, k, "</li>\n")
  {
    if !StartsAt(s, i, "\n<li>") then None
    else
      match LastBelow(s, i + 5, |s|, "</li>\n")
      case None => None
      case Some(j) => Some(Hit(j + 6, "\n<ul>\n" + s[i..j + 6] + "</ul>\n"))
  }

  /** Bold: `**`, at least one character, up to the FIRST following `**`. */
  function BoldAt(s: string, i: nat): (h: Option<Hit>)
    ensures h.Some? ==> StartsAt(s, i, "**") && i + 3 <= h.value.end - 2 && StartsAt(s, h.value.end - 2, "**")
    ensures h.Some? ==> forall k :: i + 3 <= k < h.value.end - 2 ==> !StartsAt(s, k, "**")
    ensures h.Some? ==> h.value.out == "<strong>" + s[i + 2..h.value.end - 2] + "</strong>"
    ensures h.None? ==> !StartsAt(s, i, "**") || forall k :: i + 3 <= k <= |s| ==> !StartsAt(s, k, "**")
  {
    if !StartsAt(s, i, "**") || i + 3 > |s| then None
    else
      match FindFrom(s, i + 3, "**")
      case None => None
      case Some(j) => Some(Hit(j + 2, "<strong>" + s[i + 2..j] + "</strong>"))
  }

  /** Italic: `*`, at least one character, up to the FIRST following `*`. */
  function ItalicAt(s: string, i: nat): (h: Option<Hit>)
    requires i < |s|
    ensures h.Some? ==> s[i] == '*' && i + 2 <= h.value.end - 1 && StartsAt(s, h.value.end - 1, "*")
    ensures h.Some? ==> forall k :: i + 2 <= k < h.value.end - 1 ==> !StartsAt(s, k, "*")
    ensures h.Some? ==> h.value.out == "<em>" + s[i + 1..h.value.end - 1] + "</em>"
    ensures h.None? ==> s[i] != '*' || forall k :: i + 2 <= k <= |s| ==> !StartsAt(s, k, "*")
  {
    if s[i] != '*' || i + 2 > |s| then None
    else
      match FindFrom(s, i + 2, "*")
      case None => None
      case Some(j) => Some(Hit(j + 1, "<em>" + s[i + 1..j] + "</em>"))
  }

  /** The two captures of a link and where the match ends. */
  datatype LinkSyntax = LinkSyntax(text: string, href: string, end: nat)

  /** A link: `[`, a non-empty run without `]`, `](`, a non-empty run without `)`, `)`. */
  function LinkAt(s: string, i: nat): (l: Option<LinkSyntax>)
    requires i < |s|
    ensures l.Some? ==> i < l.value.end <= |s|
  {
    if s[i] != '[' then None
    else
      match FindFrom(s, i + 1, "]")
      case None => None
      case Some(a) =>
        if a == i + 1 || !StartsAt(s, a + 1, "(") then None
        else
          match FindFrom(s, a + 2, ")")
          case None => None
          case Some(b) =>
            if b == a + 2 then None
            else Some(LinkSyntax(s[i + 1..a], s[a + 2..b], b + 1))
  }

  /**
    * Where a link's closing `]` and `)` stand: the first `]` after the text, then `(`, then
    * the first `)` after the target; the captures are the slices between them.
    */
  lemma LinkParts(s: string, i: nat) returns (a: nat, b: nat)
    requires i < |s| && LinkAt(s, i).Some?
    ensures s[i] == '[' && i + 1 < a && a + 2 < b < |s| && s[a] == ']' && s[a + 1] == '(' && s[b] == ')'
    ensures forall k :: i + 1 <= k < a ==> s[k] != ']'
    ensures forall k :: a + 2 <= k < b ==> s[k] != ')'
    ensures LinkAt(s, i) == Some(LinkSyntax(s[i + 1..a], s[a + 2..b], b + 1))
  {
    a := FindFrom(s, i + 1, "]").value;
    b := FindFrom(s, a + 2, ")").value;
    StartsAtHead(s, a, "]");
    StartsAtHead(s, b, ")");
    StartsAtHead(s, a + 1, "(");
    NoneBefore(s, i + 1, a, ']');
    NoneBefore(s, a + 2, b, ')');
  }

  /**
    * The converse of `LinkParts`: at any position, `[`, a non-empty text without `]`, `](`,
    * a non-empty target without `)` and `)` make a link match with those captures.
    */
  lemma LinkFires(s: string, i: nat, a: nat, b: nat)
    requires i < |s| && s[i] == '[' && i + 1 < a && a + 2 < b < |s|
    requires s[a] == ']' && s[a + 1] == '(' && s[b] == ')'
    requires forall k :: i + 1 <= k < a ==> s[k] != ']'
    requires forall k :: a + 2 <= k < b ==> s[k] != ')'
    ensures LinkAt(s, i) == Some(LinkSyntax(s[i + 1..a], s[a + 2..b], b + 1))
  {
    NoneAt(s, i + 1, a, ']');
    NoneAt(s, a + 2, b, ')');
    StartsAtChar(s, a, ']');
    StartsAtChar(s, a + 1, '(');
    StartsAtChar(s, b, ')');
    FindFromIs(s, i + 1, "]", a);
    FindFromIs(s, a + 2, ")", b);
  }

  /** Where a character does not stand, the one-character pattern does not occur. */
  lemma NoneAt(s: string, lo: nat, hi: nat, c: char)
    requires lo <= hi <= |s| && forall k :: lo <= k < hi ==> s[k] != c
    ensures forall k :: lo <= k < hi ==> !StartsAt(s, k, [c])
  {
    forall k | lo <= k < hi
      ensures !StartsAt(s, k, [c])
    {
      StartsAtChar(s, k, c);
    }
  }

  /** Before the first occurrence of a one-character pattern, that character does not occur. */
  lemma NoneBefore(s: string, lo: nat, hi: nat, c: char)
    requires lo <= hi <= |s| && forall k :: lo <= k < hi ==> !StartsAt(s, k, [c])
    ensures forall k :: lo <= k < hi ==> s[k] != c
  {
    forall k | lo <= k < hi
      ensures s[k] != c
    {
      StartsAtChar(s, k, c);
    }
  }

  /** A one-character pattern occurs exactly where its character stands. */
  lemma StartsAtChar(s: string, k: nat, c: char)
    requires k < |s|
    ensures StartsAt(s, k, [c]) <==> s[k] == c
  {
    if s[k] == c {
      assert s[k..k + 1] == [c];
    }
  }

  /** The anchor element written for a link. */
  function Anchor(l: LinkSyntax): string {
    "<a href=\"" + l.href + "\">" + l.text + "</a>"
  }

  /** The match of rule `r` that starts at position `i` of the subject, if any. */
  function MatchAt(r: Rule, s: string, i: nat): (h: Option<Hit>)
    requires i < |s|
    ensures h.Some? ==> i < h.value.end <= |s|
  {
    match r
    case SetextH1 => SetextAt(s, i, '=', "<h1>", "</h1>")
    case SetextH2 => SetextAt(s, i, '-', "<h2>", "</h2>")
    case ListWrap => WrapAt(s, i)
    case Bold => BoldAt(s, i)
    case Italic => ItalicAt(s, i)
    case Link =>
      (match LinkAt(s, i)
       case None => None
       case Some(l) => Some(Hit(l.end, Anchor(l))))
    case StripEmptyParagraphs =>
      if StartsAt(s, i, "<p></p>") then Some(Hit(i + 7, "")) else None
    case CollapseNewlines =>
      if s[i] == '\n' then Some(Hit(RunEnd(s, i, '\n'), "\n")) else None
    case _ => LineAt(r, s, i)
  }

  /** `preg_replace` with rule `r` on the subject `s`, from position `i` on. */
  function ReplaceFrom(r: Rule, s: string, i: nat): (o: string)
    requires i <= |s|
    decreases |s| - i
  {
    if i == |s| then ""
    else
      match MatchAt(r, s, i)
      case Some(h) => h.out + ReplaceFrom(r, s, h.end)
      case None => [s[i]] + ReplaceFrom(r, s, i + 1)
  }

  function ReplaceAll(r: Rule, s: string): string {
    ReplaceFrom(r, s, 0)
  }

  /** Applies the rules one after the other, each to the whole output of the one before. */
  function ApplyAll(rules: seq<Rule>, t: string): string
    decreases |rules|
  {
    if rules == [] then t else ApplyAll(rules[1..], ReplaceAll(rules[0], t))
  }

  /** Running `a` then `b` is running `a + b`. */
  lemma {:induction false} ApplyAllAppend(a: seq<Rule>, b: seq<Rule>, t: string)
    ensures ApplyAll(a + b, t) == ApplyAll(b, ApplyAll(a, t))
    decreases |a|
  {
    if a == [] {
      assert a + b == b;
    } else {
      assert (a + b)[0] == a[0] && (a + b)[1..] == a[1..] + b;
      ApplyAllAppend(a[1..], b, ReplaceAll(a[0], t));
    }
  }

  /** Where no match starts, the scan copies the subject. */
  lemma {:induction false} CopyRun(r: Rule, s: string, i: nat, j: nat)
    requires i <= j <= |s|
    requires forall p :: i <= p < j ==> MatchAt(r, s, p).None?
    ensures ReplaceFrom(r, s, i) == s[i..j] + ReplaceFrom(r, s, j)
    decreases j - i
  {
    if i < j {
      CopyRun(r, s, i + 1, j);
      CopyRunStep(r, s, i, j);
    }
  }

  lemma CopyRunStep(r: Rule, s: string, i: nat, j: nat)
    requires i < j <= |s| && MatchAt(r, s, i).None?
    requires ReplaceFrom(r, s, i + 1) == s[i + 1..j] + ReplaceFrom(r, s, j)
    ensures ReplaceFrom(r, s, i) == s[i..j] + ReplaceFrom(r, s, j)
  {
    CopyStep(r, s, i);
    ConsSlice(s, i, j, ReplaceFrom(r, s, j));
    Chain(ReplaceFrom(r, s, i), [s[i]], ReplaceFrom(r, s, i + 1), s[i + 1..j] + ReplaceFrom(r, s, j),
      s[i..j] + ReplaceFrom(r, s, j));
  }

  /** No match of `r` starts at any position from `i` up to `j`. */
  predicate Quiet(r: Rule, s: string, i: nat, j: nat)
    requires j <= |s|
  {
    forall p :: i <= p < j ==> MatchAt(r, s, p).None?
  }

  /** `CopyRun`, with the copied piece named. */
  lemma CopyRunAs(r: Rule, s: string, i: nat, j: nat, piece: string)
    requires i <= j <= |s| && piece == s[i..j] && Quiet(r, s, i, j)
    ensures ReplaceFrom(r, s, i) == piece + ReplaceFrom(r, s, j)
  {
    CopyRun(r, s, i, j);
  }

  lemma Chain(x: string, c: string, y: string, z: string, w: string)
    requires x == c + y && y == z && c + z == w
    ensures x == w
  {
  }

  lemma ConsSlice(s: string, i: nat, j: nat, rest: string)
    requires i < j <= |s|
    ensures [s[i]] + (s[i + 1..j] + rest) == s[i..j] + rest
  {
    assert s[i..j] == [s[i]] + s[i + 1..j];
  }

  /** Where a match starts, the scan writes its replacement and goes on after it. */
  lemma HitStep(r: Rule, s: string, i: nat)
    requires i < |s| && MatchAt(r, s, i).Some?
    ensures ReplaceFrom(r, s, i) == MatchAt(r, s, i).value.out + ReplaceFrom(r, s, MatchAt(r, s, i).value.end)
  {
  }

  /** Where no match starts, the scan copies one character. */
  lemma CopyStep(r: Rule, s: string, i: nat)
    requires i < |s| && MatchAt(r, s, i).None?
    ensures ReplaceFrom(r, s, i) == [s[i]] + ReplaceFrom(r, s, i + 1)
  {
  }

  /** A rule with no match anywhere leaves the text as it is. */
  lemma NoMatchUnchanged(r: Rule, s: string)
    requires forall p :: 0 <= p < |s| ==> MatchAt(r, s, p).None?
    ensures ReplaceAll(r, s) == s
  {
    CopyRun(r, s, 0, |s|);
  }

  /**
    * Every rule needs, where a match starts, a line start or one of the characters
    * `\n`, `*`, `[`, `<`; a position with none of these starts no match.
    */
  lemma QuietPosition(r: Rule, s: string, p: nat)
    requires 0 < p < |s| && s[p - 1] != '\n'
    requires s[p] != '\n' && s[p] != '*' && s[p] != '[' && s[p] != '<'
    ensures MatchAt(r, s, p).None?
  {
    if StartsAt(s, p, "\n<li>") { StartsAtHead(s, p, "\n<li>"); }
    if StartsAt(s, p, "**") { StartsAtHead(s, p, "**"); }
    if StartsAt(s, p, "<p></p>") { StartsAtHead(s, p, "<p></p>"); }
  }
}
