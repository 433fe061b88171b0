/**
  * The site builder (src/Xevmium.php): the page-wide state that the builder collects
  * (navigation entries, scripts, the theme manager) and the HTML fragments it writes.
  */
module Site {
  import opened Wrappers
  import opened HtmlEscape
  import opened SiteHtml
  import opened Themes

  /** The script `addCustomStyles` queues: it adds the styles of rendered Markdown to the page. */
  const MarkdownStyles: string :=
      "const style = document.createElement('style');\n" +
      "style.textContent = `\n" +
      "    .markdown-content h1 {\n" +
      "        font-size: 2.5em;\n" +
      "        margin: 1.5em 0 0.5em;\n" +
      "        padding-bottom: 0.3em;\n" +
      "        border-bottom: 2px solid var(--theme-start);\n" +
      "    }\n" +
      "    .markdown-content h2 {\n" +
      "        font-size: 2em;\n" +
      "        margin: 1.3em 0 0.5em;\n" +
      "        padding-bottom: 0.2em;\n" +
      "        border-bottom: 1px solid var(--theme-end);\n" +
      "    }\n" +
      "    .markdown-content h3 {\n" +
      "        font-size: 1.5em;\n" +
      "        margin: 1em 0 0.5em;\n" +
      "    }\n" +
      "    .markdown-content ul {\n" +
      "        padding-left: 2em;\n" +
      "        margin: 1em 0;\n" +
      "    }\n" +
      "    .markdown-content li {\n" +
      "        margin: 0.5em 0;\n" +
      "        line-height: 1.6;\n" +
      "    }\n" +
      "    .markdown-content p {\n" +
      "        margin: 1em 0;\n" +
      "        line-height: 1.6;\n" +
      "    }\n" +
      "`;\n" +
      "document.head.appendChild(style);"

  /** The attribute keys the image writer spells out are those of `SizeAttr`. */
  lemma SizeKeys()
    ensures " " + "width" + "=\"" == " width=\"" && " " + "height" + "=\"" == " height=\""
  {
  }

  /** The pieces the table writer appends, one after the other, make up `TableHtml`. */
  lemma TablePieces(c: string, r: string)
    ensures "<table>" + "<thead><tr>" == "<table><thead><tr>"
    ensures "<table><thead><tr>" + c + "</tr></thead>" + "<tbody>" + r + "</tbody></table>"
      == "<table><thead><tr>" + c + "</tr></thead><tbody>" + r + "</tbody></table>"
  {
    var t := "<table><thead><tr>" + c;
    assert "</tr></thead>" + "<tbody>" == "</tr></thead><tbody>";
    assert t + "</tr></thead>" + "<tbody>" == t + ("</tr></thead>" + "<tbody>");
  }

  /** A cell appended, as the table writer spells it out, to the cells before it. */
  lemma CellPieces(tag: string, open: string, close: string, pre: string, xs: seq<string>, i: nat)
    requires open == "<" + tag + ">" && close == "</" + tag + ">" && i < |xs|
    ensures pre + Cells(tag, xs[..i]) + (open + SanitizeHtml(xs[i]) + close) == pre + Cells(tag, xs[..i + 1])
  {
    PrefixSnoc(xs, i);
    CellAppend(tag, open, close, pre, xs[..i], xs[i], xs[..i + 1]);
  }

  lemma PrefixSnoc<T>(xs: seq<T>, i: nat)
    requires i < |xs|
    ensures xs[..i + 1] == xs[..i] + [xs[i]]
  {
  }

  /** The cell tags, spelt out from their names. */
  lemma CellTags()
    ensures "<th>" == "<" + "th" + ">" && "</th>" == "</" + "th" + ">"
    ensures "<td>" == "<" + "td" + ">" && "</td>" == "</" + "td" + ">"
  {
  }

  lemma CellAppend(tag: string, open: string, close: string, pre: string, done: seq<string>, x: string,
    all: seq<string>)
    requires open == "<" + tag + ">" && close == "</" + tag + ">" && all == done + [x]
    ensures pre + Cells(tag, done) + (open + SanitizeHtml(x) + close) == pre + Cells(tag, all)
  {
    CellsSnoc(tag, done, x);
    CellSpelled(tag, open, close, SanitizeHtml(x));
    Join3(pre, Cells(tag, done), open + SanitizeHtml(x) + close, Cells(tag, all));
  }

  lemma CellSpelled(tag: string, open: string, close: string, v: string)
    requires open == "<" + tag + ">" && close == "</" + tag + ">"
    ensures "<" + tag + ">" + v + "</" + tag + ">" == open + v + close
  {
  }

  lemma Join3(a: string, b: string, c: string, z: string)
    requires z == b + c
    ensures a + b + c == a + z
  {
  }

  /** A finished row appended to the rows before it. */
  lemma RowPieces(head: string, rows: seq<seq<string>>, j: nat)
    requires j < |rows|
    ensures head + Rows(rows[..j]) + "<tr>" + Cells("td", rows[j]) + "</tr>" == head + Rows(rows[..j + 1])
  {
    RowsSnoc(rows[..j], rows[j]);
    assert rows[..j + 1] == rows[..j] + [rows[j]];
    Append4(head, Rows(rows[..j]), "<tr>", Cells("td", rows[j]), "</tr>");
  }

  lemma Append4(a: string, b: string, c: string, d: string, e: string)
    ensures a + b + c + d + e == a + (b + (c + d + e))
  {
  }

  /**
    * The builder: the entries and scripts collected for the page, and the theme manager.
    * The page and file titles only feed the page header, which is not modelled.
    */
  class Xevmium {
    var navItems: seq<NavItem>
    var pageTitle: string
    var fileTitle: string
    /** Set once and never read; the colours come from the theme manager. */
    var theme: string
    var customJavaScript: seq<string>
    var themeManager: ThemeManager

    /** The manager holds a theme, and every navigation entry went through the sanitizer. */
    predicate Valid()
      reads this, themeManager
    {
      themeManager.Valid() && forall k :: 0 <= k < |navItems| ==> NavItemClean(navItems[k])
    }

    constructor(pageTitle: string := "My Website", fileTitle: string := "Home")
      ensures this.pageTitle == pageTitle && this.fileTitle == fileTitle
      ensures navItems == [] && customJavaScript == [] && theme == DefaultTheme
      ensures fresh(themeManager) && themeManager.currentTheme == DefaultTheme
      ensures Valid()
    {
      this.pageTitle := pageTitle;
      this.fileTitle := fileTitle;
      navItems := [];
      theme := DefaultTheme;
      customJavaScript := [];
      themeManager := new ThemeManager();
    }

    /** `setTheme`: handed to the theme manager; nothing else changes. */
    method SetTheme(themeName: string) returns (o: SetOutcome)
      requires Valid()
      modifies themeManager
      ensures themeManager.currentTheme == ThemeAfter(themeName) && Valid()
      ensures o == Applied <==> IsTheme(themeName)
      ensures o != Applied ==> o == Halted("Invalid theme: " + Escape(themeName, Html401))
    {
      o := themeManager.SetTheme(themeName);
    }

    /** `addNavItem`: appends one entry, with the url and the title sanitized. */
    method AddNavItem(url: string, title: string)
      requires Valid()
      modifies this
      ensures navItems == old(navItems) + [NavItem(SanitizeHtml(url), SanitizeHtml(title))]
      ensures customJavaScript == old(customJavaScript) && themeManager == old(themeManager)
      ensures pageTitle == old(pageTitle) && fileTitle == old(fileTitle) && theme == old(theme)
      ensures Valid()
    {
      navItems := navItems + [NavItem(SanitizeHtml(url), SanitizeHtml(title))];
    }

    /** `addJavaScript`: queues the sanitized code. */
    method AddJavaScript(code: string)
      requires Valid()
      modifies this
      ensures customJavaScript == old(customJavaScript) + [SanitizeHtml(code)]
      ensures navItems == old(navItems) && themeManager == old(themeManager)
      ensures pageTitle == old(pageTitle) && fileTitle == old(fileTitle) && theme == old(theme)
      ensures Valid()
    {
      customJavaScript := customJavaScript + [SanitizeHtml(code)];
    }

    /** `addCustomStyles`: queues the Markdown styles script, as it is. */
    method AddCustomStyles()
      requires Valid()
      modifies this
      ensures customJavaScript == old(customJavaScript) + [MarkdownStyles]
      ensures navItems == old(navItems) && themeManager == old(themeManager)
      ensures pageTitle == old(pageTitle) && fileTitle == old(fileTitle) && theme == old(theme)
      ensures Valid()
    {
      customJavaScript := customJavaScript + [MarkdownStyles];
    }

    /**
      * `buildNavigation`: one link per entry, in the order the entries were added; reading
      * the links back gives the entries.
      */
    method BuildNavigation() returns (html: string)
      requires Valid()
      ensures html == NavHtml(navItems)
      ensures ParseNav(html) == Some(navItems)
      ensures navItems == [] ==> html == ""
    {
      html := "";
      var i := 0;
      while i < |navItems|
        invariant 0 <= i <= |navItems|
        invariant html == NavHtml(navItems[..i])
      {
        var item := navItems[i];
        html := html + "<a href=\"" + item.url + "\">" + item.title + "</a>\n";
        NavHtmlSnoc(navItems[..i], item);
        assert navItems[..i + 1] == navItems[..i] + [item];
        i := i + 1;
      }
      assert navItems[..i] == navItems;
      NavRoundTrip(navItems);
    }

    /**
      * `addImage`: the image tag, with a width or height attribute only for a positive value;
      * reading it back gives the sanitized texts and exactly the positive sizes.
      */
    method AddImage(src: string, alt: string := "", width: int := 0, height: int := 0) returns (html: string)
      ensures html == ImageTag(src, alt, width, height)
      ensures ParseImage(html) == Some(Image(SanitizeHtml(src), SanitizeHtml(alt),
        if width > 0 then Some(width) else None, if height > 0 then Some(height) else None))
    {
      SizeKeys();
      var widthAttr := if width > 0 then " width=\"" + Decimal(width) + "\"" else "";
      var heightAttr := if height > 0 then " height=\"" + Decimal(height) + "\"" else "";
      assert widthAttr == SizeAttr("width", width) && heightAttr == SizeAttr("height", height);
      html := "<img src=\"" + SanitizeHtml(src) + "\" alt=\"" + SanitizeHtml(alt) + "\"" + widthAttr + heightAttr + " />";
      ImageRoundTrip(src, alt, width, height);
    }

    /** The inner loop of `addTable`: one `tr` with a `td` per cell, appended to the text so far. */
    method AppendRow(html: string, row: seq<string>) returns (out: string)
      ensures out == html + "<tr>" + Cells("td", row) + "</tr>"
    {
      out := html + "<tr>";
      ghost var rowStart := out;
      var k := 0;
      while k < |row|
        invariant 0 <= k <= |row|
        invariant out == rowStart + Cells("td", row[..k])
      {
        out := out + ("<td>" + SanitizeHtml(row[k]) + "</td>");
        CellTags();
        CellPieces("td", "<td>", "</td>", rowStart, row, k);
        k := k + 1;
      }
      assert row[..k] == row;
      out := out + "</tr>";
    }

    /** The header loop of `addTable`: a `th` per header, appended to the text so far. */
    method AppendHeaders(html: string, headers: seq<string>) returns (out: string)
      ensures out == html + Cells("th", headers)
    {
      out := html;
      var i := 0;
      while i < |headers|
        invariant 0 <= i <= |headers|
        invariant out == html + Cells("th", headers[..i])
      {
        out := out + ("<th>" + SanitizeHtml(headers[i]) + "</th>");
        CellTags();
        CellPieces("th", "<th>", "</th>", html, headers, i);
        i := i + 1;
      }
      assert headers[..i] == headers;
    }

    /**
      * `addTable`: a header row with one `th` per header, then one `tr` per row with one `td`
      * per cell, every value sanitized; reading the table back gives them in order.
      */
    method AddTable(headers: seq<string>, rows: seq<seq<string>>) returns (html: string)
      ensures html == TableHtml(headers, rows)
      ensures ParseTable(html) == Some(Table(SanitizeAll(headers), SanitizeRows(rows)))
    {
      html := "<table>";
      html := html + "<thead><tr>";
      TablePieces("", "");
      html := AppendHeaders(html, headers);
      html := html + "</tr></thead>";
      html := html + "<tbody>";
      ghost var head := html;
      var j := 0;
      while j < |rows|
        invariant 0 <= j <= |rows|
        invariant html == head + Rows(rows[..j])
      {
        html := AppendRow(html, rows[j]);
        RowPieces(head, rows, j);
        j := j + 1;
      }
      assert rows[..j] == rows;
      html := html + "</tbody></table>";
      TablePieces(Cells("th", headers), Rows(rows));
      TableRoundTrip(headers, rows);
    }
  }
}
