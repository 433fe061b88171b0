# Xevmium core in Dafny

Xevmium is a small PHP website builder. This project models its core and proves properties of
the model:

- the Markdown transformer (`src/MarkdownParser.php`): the input is escaped, then twelve
  regular-expression rewrites and one literal replacement (the `str_replace` of `<p></p>`)
  run in order, each as a left-to-right scan;
- the HTML helpers of the builder (`src/Xevmium.php`): the sanitizer, navigation entries, queued
  scripts, the image tag and the table;
- the theme manager (`src/ThemeManager.php`): a fixed table of fifteen colour themes and the
  name of the current one.

Text is a PHP byte string with one `char` per byte. The patterns carry no `u` modifier, so PCRE
matches bytes too. `htmlspecialchars` is modelled as a map from characters to strings with a
document-type parameter:

- `sanitizeHtml` passes `ENT_HTML5`, so a single quote becomes `&apos;`;
- `setTheme` passes only `ENT_QUOTES`, so a single quote becomes `&#039;`.

Each `preg_replace` is `Rewrite.ReplaceFrom`. At each position it either replaces the match that
starts there and resumes after it, or copies one character. The `str_replace` is the same scan
with a literal pattern (the rule `StripEmptyParagraphs`), since `str_replace` also replaces the
non-overlapping occurrences from left to right. A hand-written matcher for each
pattern decides the match on the subject as it stood before the call. It follows PCRE's greedy,
lazy and backtracking choices for that pattern.

The builder and the theme manager update their fields in place, so they are classes. The loops
of `buildNavigation` and `addTable` are methods with loop invariants. Each method is proved
against a function of its inputs, and a reader for the HTML they write gives back what was put
in.

Where the documentation and the code disagree, the model follows the code:

- the list wrap is a single greedy span, from the first `\n<li>` to the last `</li>\n`, not one
  `<ul>` per run of items;
- a list item on the first line of the text is never wrapped, because the pattern needs a line
  feed before `<li>`;
- a line that is exactly `</ul>` is wrapped in `<p>`, because the look-ahead only excludes
  `<h1`..`<h6`, `<ul` and `<li`;
- a one-character line is never wrapped in `<p>`, because the pattern needs two characters.

## Model

| member | source | states |
|---|---|---|
| HtmlEscape.Escape | src/Xevmium.php:296-298 | the escaped text has no `<`, `>`, `"` or `'`, and is at least as long as the input |
| HtmlEscape.UnescapeEscape | src/Xevmium.php:296-298 | decoding the five entities recovers the original text exactly |
| HtmlEscape.EscapeInjective | src/Xevmium.php:296-298 | two texts with the same escape are equal |
| HtmlEscape.EscapeAppend | src/Xevmium.php:296-298 | escaping a concatenation is the concatenation of the escapes |
| HtmlEscape.EscapeKeepsPlainText | src/Xevmium.php:296-298 | a text without metacharacters is unchanged |
| HtmlEscape.EscapeMarksSpecials | src/Xevmium.php:296-298 | a text with a metacharacter escapes to a text containing `&` |
| HtmlEscape.EscapeNotIdempotent | src/Xevmium.php:296-298 | double encoding is on: `&lt;` becomes `&amp;lt;`, and escaping twice differs from escaping once |
| SiteHtml.SanitizeHtml | src/Xevmium.php:296-298 | the result has no `<` `>` `"` `'`, decodes back to the input, and equals the input when nothing needs escaping |
| SiteHtml.SanitizeEntities | src/Xevmium.php:296-298 | `&` `<` `>` `"` `'` become `&amp;` `&lt;` `&gt;` `&quot;` `&apos;`, every other character stays, and texts are escaped piece by piece |
| SiteHtml.SanitizeTwice | src/Xevmium.php:296-298 | sanitizing is not idempotent: `&amp;` becomes `&amp;amp;` |
| SiteHtml.SanitizeInjective | src/Xevmium.php:296-298 | different inputs give different outputs |
| SiteHtml.NavHtmlSnoc | src/Xevmium.php:337-343 | appending an entry appends exactly its link to the navigation HTML |
| SiteHtml.NavRoundTrip | src/Xevmium.php:337-343 | for entries with no `"` in the url and no `<` in the title, reading the links back gives the entries in order |
| SiteHtml.DecimalRoundTrip | src/Xevmium.php:347-348 | the decimal form of a size reads back as that size |
| SiteHtml.CellsSnoc | src/Xevmium.php:355-357 | appending a value appends exactly its cell |
| SiteHtml.RowsSnoc | src/Xevmium.php:360-366 | appending a row appends exactly its `tr` |
| SiteHtml.CellsRoundTrip | src/Xevmium.php:355-357 | reading the cells gives back the sanitized values in order, and leaves the text that follows |
| SiteHtml.RowsRoundTrip | src/Xevmium.php:360-366 | reading the rows gives back one row per `tr` with its sanitized cells, in order |
| SiteHtml.TableRoundTrip | src/Xevmium.php:352-369 | reading the table gives back one header per `th` and one row of `td` cells per `tr`, all sanitized |
| SiteHtml.SizeRoundTrip | src/Xevmium.php:347-348 | the size attribute reads back as the size when it is positive, and is absent otherwise |
| SiteHtml.ImageRoundTrip | src/Xevmium.php:346-349 | reading the tag gives back the sanitized source and alt text, a width iff the width is > 0, and a height iff the height is > 0 |
| Site.Xevmium.constructor | src/Xevmium.php:25-45 | the titles are stored, there are no entries and no scripts, and a fresh theme manager holds `blue` |
| Site.Xevmium.SetTheme | src/Xevmium.php:53-55 | delegates to the theme manager, with that method's outcome and new theme, and keeps the builder valid |
| Site.Xevmium.AddNavItem | src/Xevmium.php:62-67 | appends exactly one entry, the sanitized url and title; nothing else changes; every entry stays clean |
| Site.Xevmium.AddJavaScript | src/Xevmium.php:69-71 | appends exactly the sanitized code to the scripts; nothing else changes; the builder stays valid |
| Site.Xevmium.AddCustomStyles | src/Xevmium.php:300-335 | appends exactly the Markdown styles script, unescaped; nothing else changes; the builder stays valid |
| Site.Xevmium.BuildNavigation | src/Xevmium.php:337-343 | the result is one link per entry in order (empty for no entries), and it reads back as the entries |
| Site.Xevmium.AddImage | src/Xevmium.php:346-349 | the tag written is `ImageTag`, and it reads back as the sanitized texts and exactly the positive sizes |
| Site.Xevmium.AppendHeaders | src/Xevmium.php:355-357 | appends a `th` with the sanitized header per header, in order |
| Site.Xevmium.AppendRow | src/Xevmium.php:361-365 | appends one `tr` with a `td` per cell, in order |
| Site.Xevmium.AddTable | src/Xevmium.php:352-369 | the HTML written is `TableHtml`, and it reads back as the sanitized headers and rows |
| Themes.Lookup | src/ThemeManager.php:38 | the lookup finds nothing iff no entry has that key, and a colour it finds belongs to an entry with that key |
| Themes.ThemeKeysDistinct | src/ThemeManager.php:14-30 | the fifteen keys are pairwise distinct |
| Themes.LookupEntry | src/ThemeManager.php:14-30 | each key's lookup gives its own entry's colours |
| Themes.ThemeColorsTable | src/ThemeManager.php:14-30 | the colour pair of each of the fifteen themes, from `blue` (`#4a90e2`, `#357abd`) to `deepPurple` (`#673ab7`, `#512da8`) |
| Themes.DefaultColors | src/ThemeManager.php:12-15 | `blue` is a theme, with colours `#4a90e2` to `#357abd` |
| Themes.ThemeNameEscapes | src/ThemeManager.php:37-38 | a theme name has no metacharacter, so the escape keeps it |
| Themes.SpecialNotTheme | src/ThemeManager.php:37-38 | a name containing a metacharacter is not a theme |
| Themes.EscapedLookup | src/ThemeManager.php:37-38 | looking up the escaped name gives the same answer as looking up the name itself |
| Themes.ThemeAfter | src/ThemeManager.php:36-48 | the resulting theme is always a key; it is the name iff the name is a theme, and `blue` otherwise |
| Themes.ThemeManager.constructor | src/ThemeManager.php:12-34 | a new manager holds `blue` and is valid |
| Themes.ThemeManager.SetTheme | src/ThemeManager.php:36-48 | the current theme becomes `ThemeAfter(name)`, so a key always stays current; the outcome is `Applied` iff the name is a theme, and otherwise the handler is called with `Invalid theme: ` plus the escaped name |
| Themes.ThemeManager.CurrentThemeColors | src/ThemeManager.php:50-52 | a valid manager reports its theme's entry; the `blue` fallback is reached only by an invalid state |
| Themes.ThemeManager.AvailableThemes | src/ThemeManager.php:54-56 | fifteen names, the table's keys in declaration order |
| Themes.AvailableThemeNames | src/ThemeManager.php:14-30 | the names are blue, green, purple, orange, red, teal, pink, yellow, gray, indigo, cyan, amber, lime, brown, deepPurple |
| Themes.AvailableThemesDistinct | src/ThemeManager.php:54-56 | no name is listed twice |
| Themes.SetThenColors | src/ThemeManager.php:47-51 | after setting a theme, its own colours are reported |
| Themes.ReapplyKeeps | src/ThemeManager.php:36-48 | setting the theme already held keeps it, so `setTheme` is idempotent |
| Rewrite.MatchAt | src/MarkdownParser.php:46-64 | a match ends after its start and within the text |
| Rewrite.ReplaceFrom | src/MarkdownParser.php:46-64 | `preg_replace`, and `str_replace` on a literal pattern, as a scan from left to right; proved over all inputs: positions where no match starts are copied unchanged (`CopyRun`), a pattern that matches nowhere leaves the text unchanged (`NoMatchUnchanged`), for a line rule the scan equals the line-by-line rewrite `MapLines` (`LineRuleIsLineMap`), and every rewrite keeps a safe text safe (`ReplaceSafe`) |
| Rewrite.SetextAt | src/MarkdownParser.php:46-47 | a match starts at a line start with a non-empty line, the next line starts with the underline character, the match ends at a line feed or the end of the text, and the replacement is the tags around the first line |
| Rewrite.WrapAt | src/MarkdownParser.php:54 | a match starts with `\n<li>` and ends after the LAST `</li>\n` that follows (greedy); the replacement is `\n<ul>\n`, the matched text and `</ul>\n`; without a match there is no `\n<li>` there or no `</li>\n` after it |
| Rewrite.BoldAt | src/MarkdownParser.php:57 | a match is `**`, a body of one or more characters, and the FIRST `**` after it (lazy); the replacement is the body in `<strong>`; without a match there is no `**` there or none after the first body character |
| Rewrite.ItalicAt | src/MarkdownParser.php:58 | a match is `*`, a body of one or more characters, and the FIRST `*` after it (lazy); the replacement is the body in `<em>`; without a match there is no `*` there or none after the first body character |
| Rewrite.LineMatches | src/MarkdownParser.php:48-62 | a line that a line rule matches is at least two characters long: a marker and one character, or the two characters the paragraph pattern needs |
| Rewrite.LineOut | src/MarkdownParser.php:48-62 | the replacement of a matched line; its shape is stated by `LineOutCapture` |
| Rewrite.LineOutCapture | src/MarkdownParser.php:48-62 | the replacement is the rule's tags around a non-empty capture that is the end of the line: the line after the marker, or the whole line for a paragraph; its length is the tags' plus the line's, less the marker for a rule other than the paragraph |
| Rewrite.LinkAt | src/MarkdownParser.php:59 | a link match ends after its start and within the text; its shape is stated by `LinkParts` and `LinkFires` |
| Rewrite.LinkParts | src/MarkdownParser.php:59 | a link match is `[`, a non-empty text up to the first `]`, then `(`, and a non-empty target up to the first `)`; the captures are the slices between them and the match ends after the `)` |
| Rewrite.LinkFires | src/MarkdownParser.php:59 | the converse, at any position: that shape makes a link match with those captures, ending after the `)` |
| Rewrite.ApplyAllAppend | src/MarkdownParser.php:46-64 | running two rule lists in sequence is running their concatenation |
| Rewrite.CopyRun | src/MarkdownParser.php:46-64 | positions where the pattern does not match are copied unchanged |
| Rewrite.NoMatchUnchanged | src/MarkdownParser.php:46-64 | a rewrite whose pattern matches nowhere leaves the text unchanged |
| Rewrite.QuietPosition | src/MarkdownParser.php:46-64 | no pattern matches mid-line at a character other than a line feed, `*`, `[` or `<` |
| LineRules.ReplaceFromLineStart | src/MarkdownParser.php:48-62 | from a line start, a line rule rewrites the text line by line and keeps the line feeds |
| LineRules.LineRuleIsLineMap | src/MarkdownParser.php:48-62 | each line rule maps every line independently |
| LineRules.AtxHeaderLines | src/MarkdownParser.php:48-50 | `# t`, `## t` and `### t` become `<h1>t</h1>`, `<h2>t</h2>` and `<h3>t</h3>` |
| LineRules.ListItemLine | src/MarkdownParser.php:53 | `* t` becomes `<li>t</li>` |
| LineRules.ParagraphLines | src/MarkdownParser.php:62 | a line is wrapped in `<p>` iff it has two or more characters and does not start with `<h1`..`<h6`, `<ul` or `<li`; `</ul>` is wrapped; a one-character line is not |
| SpanRules.SetextShape | src/MarkdownParser.php:46-47 | a setext match starts a line, is followed by an underline run, ends at a line end, and writes the header around the first line |
| SpanRules.SetextWhole | src/MarkdownParser.php:46-47 | a line, a run of the underline character (`=` or `-`) and trailing white space become `<h1>line</h1>` or `<h2>line</h2>` |
| SpanRules.SetextFires | src/MarkdownParser.php:46-47 | the converse of `SetextShape`: a non-empty line at a line start, then a line starting with the underline character, its run, and only white space up to a line feed or the end of the text, is matched; the match writes the header around the line and, the white space being greedy, reaches at least that line end |
| SpanRules.BoldWithoutStars | src/MarkdownParser.php:57 | text without `*` is left alone by the bold rule |
| SpanRules.ItalicOnListItems | src/MarkdownParser.php:58 | the italic rule alone on `* a` and `* b` pairs the two markers across the line feed, giving `<em> a` line feed `</em> b` |
| Markdown.ListBeforeEmphasis | src/MarkdownParser.php:53-58 | list items come before bold and italic, so `* a` and `* b` end as `<li>a</li>` and `<li>b</li>` with no emphasis |
| SpanRules.BoldWhole | src/MarkdownParser.php:57 | `**x**` becomes `<strong>x</strong>` |
| SpanRules.ItalicWhole | src/MarkdownParser.php:58 | `*x*` becomes `<em>x</em>` |
| SpanRules.ItalicWithoutStars | src/MarkdownParser.php:58 | text without `*` is left alone by the italic rule |
| SpanRules.BoldBeforeItalic | src/MarkdownParser.php:57-58 | running bold then italic on `**x**` gives `<strong>x</strong>`; italic alone would give `<em>*x</em>*` |
| SpanRules.ItalicOnDoubleStars | src/MarkdownParser.php:58 | the italic rule alone turns `**x**` into `<em>*x</em>*` |
| SpanRules.LinkWhole | src/MarkdownParser.php:59 | `[t](u)` becomes `<a href="u">t</a>` |
| SpanRules.WrapOnce | src/MarkdownParser.php:54 | one `<ul>` is placed around the span from the first `\n<li>` to the last `</li>\n` after it |
| SpanRules.WrapNone | src/MarkdownParser.php:54 | with no `</li>\n` after the first `\n<li>`, the text is unchanged |
| SpanRules.WrapAbsent | src/MarkdownParser.php:54 | with no `\n<li>`, the text is unchanged |
| SpanRules.CollapseFrom | src/MarkdownParser.php:64 | the output of the line-feed collapse never has two adjacent line feeds |
| SpanRules.CollapseNoBlankLine | src/MarkdownParser.php:64 | after the collapse there is no blank line |
| SpanRules.CollapseKeeps | src/MarkdownParser.php:64 | the collapse leaves text without adjacent line feeds unchanged |
| SpanRules.CollapseIdempotent | src/MarkdownParser.php:64 | collapsing twice is collapsing once |
| SpanRules.ReplaceAbsent | src/MarkdownParser.php:46-64 | a character absent from the text and from the rule's replacement is absent from the result |
| SpanRules.ApplyAllAbsent | src/MarkdownParser.php:46-64 | the same holds across a list of rules |
| MarkupSafety.SafeConcat | src/MarkdownParser.php:46-64 | concatenating safe texts gives a safe text |
| MarkupSafety.SetextHitSafe | src/MarkdownParser.php:46-47 | a setext replacement of a safe text is safe |
| MarkupSafety.LineHitSafe | src/MarkdownParser.php:48-62 | a line-rule replacement of a safe text is safe |
| MarkupSafety.WrapHitSafe | src/MarkdownParser.php:54 | the list wrap of a safe text is safe |
| MarkupSafety.EmphasisHitSafe | src/MarkdownParser.php:57-58 | bold and italic replacements of a safe text are safe |
| MarkupSafety.LinkHitSafe | src/MarkdownParser.php:59 | a link replacement of a safe text is safe |
| MarkupSafety.HitSafe | src/MarkdownParser.php:46-64 | every rule's replacement of a safe text is safe |
| MarkupSafety.ReplaceSafe | src/MarkdownParser.php:46-64 | each rewrite keeps a text safe: every `<` starts one of the tags the rules write |
| MarkupSafety.ApplyAllSafe | src/MarkdownParser.php:46-64 | the whole rule list keeps a text safe |
| Markdown.PipelineOnce | src/MarkdownParser.php:46-64 | the transformer runs every one of the thirteen rewrites and none of them twice |
| Markdown.ParseMarkdown | src/MarkdownParser.php:41-70 | every `<` of the output begins one of the rules' own tags, so no input markup survives; no blank line remains; input without metacharacters is rewritten as it is |
| Markdown.CollapseLast | src/MarkdownParser.php:64 | the pipeline's output has no blank line |
| Markdown.PlainTextEscape | src/MarkdownParser.php:42 | input without metacharacters reaches the rules unchanged |
| Markdown.LinkTargetsQuoteFree | src/MarkdownParser.php:42-59 | when links are formed the text has no `"`, so no link target or link text contains one |
| Markdown.PlainBeforeParagraph | src/MarkdownParser.php:46-59 | a line of plain characters passes the first ten rules unchanged |
| Markdown.PlainParagraphRule | src/MarkdownParser.php:62 | a plain line of two or more characters is wrapped in `<p>` |
| Markdown.ParagraphSettled | src/MarkdownParser.php:63-64 | the last two rules leave such a paragraph alone |
| Markdown.PlainLineParagraph | src/MarkdownParser.php:41-70 | end to end, a plain line of two or more characters becomes `<p>line</p>` |
| Markdown.FileTitle | src/MarkdownParser.php:94 | the title has no `/` |
| Markdown.FileTitleExample | src/MarkdownParser.php:94 | `docs/guide.v2.md` gives `guide.v2`, and `README` gives `README` |
| Markdown.LoadMarkdownPage | src/MarkdownParser.php:78-97 | a missing file stops with `Markdown file not found: ` plus the path; invalid UTF-8 stops with `Invalid UTF-8 encoding in file`; otherwise the page is the parsed Markdown, titled by the file name |

## Left out

- File access in `loadMarkdownPage` (`file_exists`, `file_get_contents`, `mb_check_encoding`): the file contents and the outcome of the encoding check are parameters, and `echo` becomes the returned page.
- `XevmiumException::handle`: `XevmiumException.php` is not part of this model. Its error page and the end of the request are the `Halted` outcome, which carries the message. The handler always ends the request, so the program never observes the `blue` that `setTheme` stores after it (src/ThemeManager.php:43); the model stores it all the same.
- The call to `addCustomStyles` inside `parseMarkdown`, which acts on the parser's own builder instance: `Site.Xevmium.AddCustomStyles` models that method itself.
- `buildHeader`, `buildFooter`, `createButton`, `center` and `addContent`: these are page templates and output, and `Run.php` is not part of this model. So the page and file titles and the current colours are stored but never rendered.
- The `theme` field of the builder is written once and never read; it is modelled as a plain field.
- `addImage` and `addTable` return their HTML where the source echoes it.
- `htmlspecialchars` on invalid UTF-8 returns the empty string. The model takes every input as valid.
- `preg_replace` can fail on the PCRE backtrack limit. Line terminators other than `\n` are not modelled.
- Markdown.FileTitle: `pathinfo` on paths with trailing slashes is not modelled. The title is the part after the last `/` without its last extension.
- Integer sizes are unbounded; PHP's 64-bit integers are not modelled.
