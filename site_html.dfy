/**
  * The HTML the site builder writes from its data (src/Xevmium.php): sanitized text, the
  * navigation links, tables and image tags. Each writer has a reader beside it that takes
  * the HTML apart again, and the two are proved to be inverse, which states that the HTML
  * holds exactly the given data, in order, and that no value can break out of its element
  * or attribute.
  */
module SiteHtml {
  import opened Wrappers
  import opened Text
  import opened HtmlEscape

  /** Text that can sit inside an element or a quoted attribute without ending it. */
  predicate Clean(s: string) {
    '<' !in s && '>' !in s && '"' !in s && '\'' !in s
  }

  /**
    * `sanitizeHtml`: `htmlspecialchars` with `ENT_QUOTES | ENT_HTML5`. The result is clean,
    * decodes back to the input, and is the input itself when there is nothing to escape.
    */
  function SanitizeHtml(text: string): (r: string)
    ensures Clean(r)
    ensures Unescape(r, Html5) == text
    ensures NoSpecial(text) ==> r == text
  {
    UnescapeEscape(text, Html5);
    PlainSanitized(text);
    Escape(text, Html5)
  }

  lemma PlainSanitized(text: string)
    ensures NoSpecial(text) ==> Escape(text, Html5) == text
  {
    if NoSpecial(text) {
      EscapeKeepsPlainText(text, Html5);
    }
  }

  /**
    * The escape is a map from characters to strings: the five metacharacters become
    * their entities, every other character stays, and a text is escaped piece by piece.
    */
  lemma SanitizeEntities(c: char, a: string, b: string)
    ensures SanitizeHtml("&") == "&amp;" && SanitizeHtml("<") == "&lt;" && SanitizeHtml(">") == "&gt;"
    ensures SanitizeHtml("\"") == "&quot;" && SanitizeHtml("'") == "&apos;"
    ensures !IsSpecial(c) ==> SanitizeHtml([c]) == [c]
    ensures SanitizeHtml(a + b) == SanitizeHtml(a) + SanitizeHtml(b)
  {
    SanitizeMetachars();
    EscapeSingle(c);
    EscapeAppend(a, b, Html5);
  }

  lemma SanitizeMetachars()
    ensures SanitizeHtml("&") == "&amp;" && SanitizeHtml("<") == "&lt;" && SanitizeHtml(">") == "&gt;"
    ensures SanitizeHtml("\"") == "&quot;" && SanitizeHtml("'") == "&apos;"
  {
    EscapeSingle('&');
    EscapeSingle('<');
    EscapeSingle('>');
    EscapeSingle('"');
    assert Escape("'", Html5) == "&apos;" by {
      assert "'" == ['\''];
      EscapeSingle('\'');
      assert AposEntity(Html5) == "&apos;";
    }
  }

  lemma EscapeSingle(c: char)
    ensures Escape([c], Html5) == EscapeChar(c, Html5)
  {
    assert [c][1..] == [];
  }

  /** An `&` that already begins an entity is escaped again. */
  lemma SanitizeTwice()
    ensures SanitizeHtml("&amp;") == "&amp;amp;"
    ensures SanitizeHtml(SanitizeHtml("<")) != SanitizeHtml("<")
  {
    EscapeNotIdempotent(Html5);
    AmpEscapedAgain();
  }

  lemma AmpEscapedAgain()
    ensures Escape("&amp;", Html5) == "&amp;amp;"
  {
    EscapeBeforePlain('&', "amp;", Html5);
    assert ['&'] + "amp;" == "&amp;";
  }

  /** Distinct inputs are written differently. */
  lemma SanitizeInjective(a: string, b: string)
    requires SanitizeHtml(a) == SanitizeHtml(b)
    ensures a == b
  {
  }

  // ---------------------------------------------------------------- navigation

  /** A navigation entry as the builder stores it. */
  datatype NavItem = NavItem(url: string, title: string)

  /** The link written for one entry. */
  function NavLink(item: NavItem): string {
    "<a href=\"" + item.url + "\">" + item.title + "</a>\n"
  }

  /** The navigation HTML: one link per entry, in order. */
  function NavHtml(items: seq<NavItem>): string
    decreases |items|
  {
    if items == [] then "" else NavLink(items[0]) + NavHtml(items[1..])
  }

  /** Appending an entry appends its link. */
  lemma {:induction false} NavHtmlSnoc(items: seq<NavItem>, item: NavItem)
    ensures NavHtml(items + [item]) == NavHtml(items) + NavLink(item)
    decreases |items|
  {
    if items == [] {
      assert [] + [item] == [item];
      assert NavHtml([item]) == NavLink(item) + NavHtml([]);
    } else {
      assert (items + [item])[0] == items[0] && (items + [item])[1..] == items[1..] + [item];
      NavHtmlSnoc(items[1..], item);
    }
  }

  /** An entry whose url has no double quote and whose title has no `<`. */
  predicate NavItemClean(item: NavItem) {
    '"' !in item.url && '<' !in item.title
  }

  /** Reads navigation links back: `<a href="url">title</a>` and a line feed, repeated. */
  function ParseNav(s: string): Option<seq<NavItem>>
    decreases |s|
  {
    if s == [] then Some([])
    else
      match NavHead(s)
      case None => None
      case Some(h) => Prepend(h.0, ParseNav(s[h.1..]))
  }

  /** The first link of a text and where it ends, line feed included. */
  function NavHead(s: string): (r: Option<(NavItem, nat)>)
    ensures r.Some? ==> 0 < r.value.1 <= |s|
  {
    if !StartsAt(s, 0, "<a href=\"") then None
    else
      match FindFrom(s, 9, "\"")
      case None => None
      case Some(q) =>
        if !StartsAt(s, q, "\">") then None
        else
          match FindFrom(s, q + 2, "<")
          case None => None
          case Some(l) =>
            if !StartsAt(s, l, "</a>\n") then None
            else Some((NavItem(s[9..q], s[q + 2..l]), l + 5))
  }

  /** The entry put in front of what the rest of the text reads as, if it reads. */
  function Prepend(item: NavItem, rest: Option<seq<NavItem>>): Option<seq<NavItem>> {
    match rest
    case None => None
    case Some(items) => Some([item] + items)
  }

  /** Once the first link is read, the reader goes on after it. */
  lemma ParseNavStep(s: string, item: NavItem, e: nat, rest: string)
    requires s != [] && NavHead(s) == Some((item, e)) && e <= |s| && rest == s[e..]
    ensures ParseNav(s) == Prepend(item, ParseNav(rest))
  {
  }

  lemma NavHeadIs(s: string, q: nat, l: nat)
    requires 9 <= q && q + 2 <= l && l + 5 <= |s|
    requires StartsAt(s, 0, "<a href=\"") && FindFrom(s, 9, "\"") == Some(q) && StartsAt(s, q, "\">")
    requires FindFrom(s, q + 2, "<") == Some(l) && StartsAt(s, l, "</a>\n")
    ensures NavHead(s) == Some((NavItem(s[9..q], s[q + 2..l]), l + 5))
  {
  }

  /** The reader takes the first link of a text apart. */
  lemma ParseNavLink(item: NavItem, rest: string)
    requires NavItemClean(item)
    ensures ParseNav(NavLink(item) + rest) == Prepend(item, ParseNav(rest))
  {
    NavLinkAt(NavLink(item) + rest, item, rest);
  }

  lemma NavLinkAt(s: string, item: NavItem, rest: string)
    requires NavItemClean(item) && s == NavLink(item) + rest
    ensures ParseNav(s) == Prepend(item, ParseNav(rest))
  {
    var u, t := item.url, item.title;
    var q := 9 + |u|;
    var l := q + 2 + |t|;
    assert s == "<a href=\"" + u + "\">" + t + "</a>\n" + rest;
    NavLinkUrl(s, u, t, rest);
    NavLinkTitle(s, u, t, rest);
    NavLinkEnd(s, u, t, rest);
    NavStepAs(s, q, l, item, rest);
  }

  lemma NavStepAs(s: string, q: nat, l: nat, item: NavItem, rest: string)
    requires 9 <= q && q + 2 <= l && l + 5 <= |s|
    requires StartsAt(s, 0, "<a href=\"") && FindFrom(s, 9, "\"") == Some(q) && StartsAt(s, q, "\">")
    requires FindFrom(s, q + 2, "<") == Some(l) && StartsAt(s, l, "</a>\n")
    requires item == NavItem(s[9..q], s[q + 2..l]) && rest == s[l + 5..]
    ensures ParseNav(s) == Prepend(item, ParseNav(rest))
  {
    NavHeadIs(s, q, l);
    ParseNavStep(s, item, l + 5, rest);
  }

  lemma NavLinkUrl(s: string, u: string, t: string, rest: string)
    requires s == "<a href=\"" + u + "\">" + t + "</a>\n" + rest && '"' !in u
    ensures StartsAt(s, 0, "<a href=\"") && s[9..9 + |u|] == u && FindFrom(s, 9, "\"") == Some(9 + |u|)
  {
    var tail := "\">" + t + "</a>\n" + rest;
    assert s == "<a href=\"" + u + tail;
    StartsAtJoin("", "<a href=\"", u + tail);
    StartsAtJoin("<a href=\"", u, tail);
    FindAfter("<a href=\"", u, tail, '"');
  }

  lemma NavLinkTitle(s: string, u: string, t: string, rest: string)
    requires s == "<a href=\"" + u + "\">" + t + "</a>\n" + rest && '<' !in t
    ensures var q := 9 + |u|;
      StartsAt(s, q, "\">") && FindFrom(s, q + 2, "<") == Some(q + 2 + |t|) && s[q + 2..q + 2 + |t|] == t
  {
    var head := "<a href=\"" + u;
    var tail := "</a>\n" + rest;
    assert s == head + "\">" + (t + tail);
    StartsAtJoin(head, "\">", t + tail);
    assert s == head + "\">" + t + tail;
    FindAfter(head + "\">", t, tail, '<');
    StartsAtJoin(head + "\">", t, tail);
  }

  lemma NavLinkEnd(s: string, u: string, t: string, rest: string)
    requires s == "<a href=\"" + u + "\">" + t + "</a>\n" + rest
    ensures var l := 11 + |u| + |t|; StartsAt(s, l, "</a>\n") && s[l + 5..] == rest
  {
    StartsAtJoin("<a href=\"" + u + "\">" + t, "</a>\n", rest);
  }

  /** Reading the navigation HTML gives back the entries, in order. */
  lemma {:induction false} NavRoundTrip(items: seq<NavItem>)
    requires forall k :: 0 <= k < |items| ==> NavItemClean(items[k])
    ensures ParseNav(NavHtml(items)) == Some(items)
    decreases |items|
  {
    if items != [] {
      NavRoundTrip(items[1..]);
      NavRoundTripStep(items);
    }
  }

  lemma NavRoundTripStep(items: seq<NavItem>)
    requires items != [] && NavItemClean(items[0]) && ParseNav(NavHtml(items[1..])) == Some(items[1..])
    ensures ParseNav(NavHtml(items)) == Some(items)
  {
    ParseNavLink(items[0], NavHtml(items[1..]));
    assert [items[0]] + items[1..] == items;
  }

  // ---------------------------------------------------------------- numbers

  function DigitChar(d: nat): char
    requires d < 10
  {
    "0123456789"[d]
  }

  /** PHP's decimal form of a non-negative integer. */
  function Decimal(n: nat): (d: string)
    ensures |d| > 0 && forall k :: 0 <= k < |d| ==> '0' <= d[k] <= '9'
    decreases n
  {
    if n < 10 then [DigitChar(n)] else Decimal(n / 10) + [DigitChar(n % 10)]
  }

  /** The value of a string of decimal digits. */
  function DecimalValue(d: string): nat
    decreases |d|
  {
    if d == [] then 0
    else DecimalValue(d[..|d| - 1]) * 10 + (if '0' <= d[|d| - 1] <= '9' then (d[|d| - 1] - '0') as int else 0)
  }

  predicate IsDecimal(d: string) {
    |d| > 0 && forall k :: 0 <= k < |d| ==> '0' <= d[k] <= '9'
  }

  /** Reading the decimal form gives back the number. */
  lemma {:induction false} DecimalRoundTrip(n: nat)
    ensures DecimalValue(Decimal(n)) == n
    decreases n
  {
    var d := Decimal(n);
    if n < 10 {
      assert d[..0] == [];
    } else {
      DecimalRoundTrip(n / 10);
      assert d[..|d| - 1] == Decimal(n / 10);
    }
  }

  // ---------------------------------------------------------------- tables

  /** One cell: the sanitized value between `<tag>` and `</tag>`. */
  function Cell(tag: string, x: string): string {
    "<" + tag + ">" + SanitizeHtml(x) + "</" + tag + ">"
  }

  /** The cells for a list of values, in order. */
  function Cells(tag: string, xs: seq<string>): string
    decreases |xs|
  {
    if xs == [] then "" else Cell(tag, xs[0]) + Cells(tag, xs[1..])
  }

  lemma {:induction false} CellsSnoc(tag: string, xs: seq<string>, x: string)
    ensures Cells(tag, xs + [x]) == Cells(tag, xs) + Cell(tag, x)
    decreases |xs|
  {
    if xs == [] {
      assert [] + [x] == [x];
      assert Cells(tag, [x]) == Cell(tag, x) + Cells(tag, []);
    } else {
      assert (xs + [x])[0] == xs[0] && (xs + [x])[1..] == xs[1..] + [x];
      CellsSnoc(tag, xs[1..], x);
    }
  }

  /** One table row. */
  function Row(cells: seq<string>): string {
    "<tr>" + Cells("td", cells) + "</tr>"
  }

  function Rows(rows: seq<seq<string>>): string
    decreases |rows|
  {
    if rows == [] then "" else Row(rows[0]) + Rows(rows[1..])
  }

  lemma {:induction false} RowsSnoc(rows: seq<seq<string>>, row: seq<string>)
    ensures Rows(rows + [row]) == Rows(rows) + Row(row)
    decreases |rows|
  {
    if rows == [] {
      assert [] + [row] == [row];
      assert Rows([row]) == Row(row) + Rows([]);
    } else {
      assert (rows + [row])[0] == rows[0] && (rows + [row])[1..] == rows[1..] + [row];
      RowsSnoc(rows[1..], row);
    }
  }

  /** The table HTML: a header row of `th` cells, then one `tr` of `td` cells per row. */
  function TableHtml(headers: seq<string>, rows: seq<seq<string>>): string {
    "<table><thead><tr>" + Cells("th", headers) + "</tr></thead><tbody>" + Rows(rows) + "</tbody></table>"
  }

  function SanitizeAll(xs: seq<string>): (ys: seq<string>)
    ensures |ys| == |xs| && forall k :: 0 <= k < |xs| ==> ys[k] == SanitizeHtml(xs[k])
  {
    seq(|xs|, k requires 0 <= k < |xs| => SanitizeHtml(xs[k]))
  }

  function SanitizeRows(rows: seq<seq<string>>): (ys: seq<seq<string>>)
    ensures |ys| == |rows| && forall k :: 0 <= k < |rows| ==> ys[k] == SanitizeAll(rows[k])
  {
    seq(|rows|, k requires 0 <= k < |rows| => SanitizeAll(rows[k]))
  }

  lemma SanitizeAllCons(xs: seq<string>)
    requires xs != []
    ensures SanitizeAll(xs) == [SanitizeHtml(xs[0])] + SanitizeAll(xs[1..])
  {
    var a, b := SanitizeAll(xs), [SanitizeHtml(xs[0])] + SanitizeAll(xs[1..]);
    forall k | 0 <= k < |a|
      ensures a[k] == b[k]
    {
      if k > 0 {
        assert b[k] == SanitizeAll(xs[1..])[k - 1];
      }
    }
  }

  lemma SanitizeRowsCons(rows: seq<seq<string>>)
    requires rows != []
    ensures SanitizeRows(rows) == [SanitizeAll(rows[0])] + SanitizeRows(rows[1..])
  {
    var a, b := SanitizeRows(rows), [SanitizeAll(rows[0])] + SanitizeRows(rows[1..]);
    forall k | 0 <= k < |a|
      ensures a[k] == b[k]
    {
      if k > 0 {
        assert b[k] == SanitizeRows(rows[1..])[k - 1];
      }
    }
  }

  /** Reads `<tag>x</tag>` cells for as long as the text starts with `<tag>`; returns them and the rest. */
  function ParseCells(tag: string, s: string): (r: Option<(seq<string>, string)>)
    ensures r.Some? ==> |r.value.1| <= |s|
    decreases |s|
  {
    var open := "<" + tag + ">";
    var close := "</" + tag + ">";
    if !StartsAt(s, 0, open) then Some(([], s))
    else
      match FindFrom(s, |open|, "<")
      case None => None
      case Some(l) =>
        if !StartsAt(s, l, close) then None
        else
          match ParseCells(tag, s[l + |close|..])
          case None => None
          case Some(more) => Some(([s[|open|..l]] + more.0, more.1))
  }

  /** Reads `<tr>` rows of `td` cells for as long as the text starts with `<tr>`. */
  function ParseRows(s: string): (r: Option<(seq<seq<string>>, string)>)
    ensures r.Some? ==> |r.value.1| <= |s|
    decreases |s|
  {
    if !StartsAt(s, 0, "<tr>") then Some(([], s))
    else
      match ParseCells("td", s[4..])
      case None => None
      case Some(c) =>
        if !StartsAt(c.1, 0, "</tr>") then None
        else
          match ParseRows(c.1[5..])
          case None => None
          case Some(more) => Some(([c.0] + more.0, more.1))
  }

  /** A table as read back: the header cells and the rows of cells. */
  datatype Table = Table(headers: seq<string>, rows: seq<seq<string>>)

  /** Reads a whole table back. */
  function ParseTable(s: string): Option<Table> {
    if !StartsAt(s, 0, "<table><thead><tr>") then None
    else
      match ParseCells("th", s[18..])
      case None => None
      case Some(h) =>
        if !StartsAt(h.1, 0, "</tr></thead><tbody>") then None
        else
          match ParseRows(h.1[20..])
          case None => None
          case Some(r) => if r.1 == "</tbody></table>" then Some(Table(h.0, r.0)) else None
  }

  /** One step of the cell reader, given where the first cell closes. */
  lemma ParseCellsStep(tag: string, s: string, l: nat)
    requires |"<" + tag + ">"| <= l && l + |"</" + tag + ">"| <= |s|
    requires StartsAt(s, 0, "<" + tag + ">") && FindFrom(s, |"<" + tag + ">"|, "<") == Some(l)
    requires StartsAt(s, l, "</" + tag + ">")
    ensures ParseCells(tag, s) ==
      match ParseCells(tag, s[l + |"</" + tag + ">"|..])
      case None => None
      case Some(more) => Some(([s[|"<" + tag + ">"|..l]] + more.0, more.1))
  {
  }

  /** The cell reader takes the first cell of a text apart. */
  lemma ParseCell(tag: string, x: string, rest: string)
    ensures ParseCells(tag, Cell(tag, x) + rest) ==
      match ParseCells(tag, rest)
      case None => None
      case Some(more) => Some(([SanitizeHtml(x)] + more.0, more.1))
  {
    ParseCellText(tag, SanitizeHtml(x), rest);
  }

  lemma ParseCellText(tag: string, v: string, rest: string)
    requires '<' !in v
    ensures ParseCells(tag, "<" + tag + ">" + v + "</" + tag + ">" + rest) ==
      match ParseCells(tag, rest)
      case None => None
      case Some(more) => Some(([v] + more.0, more.1))
  {
    var open, close := "<" + tag + ">", "</" + tag + ">";
    var s := open + v + close + rest;
    var l := |open| + |v|;
    CellTextPieces(s, open, v, close, rest);
    ParseCellsStep(tag, s, l);
    assert s == "<" + tag + ">" + v + "</" + tag + ">" + rest;
  }

  lemma CellTextPieces(s: string, open: string, v: string, close: string, rest: string)
    requires s == open + v + close + rest && '<' !in v && |close| > 0 && close[0] == '<'
    ensures StartsAt(s, 0, open) && s[|open|..|open| + |v|] == v
    ensures FindFrom(s, |open|, "<") == Some(|open| + |v|)
    ensures StartsAt(s, |open| + |v|, close) && s[|open| + |v| + |close|..] == rest
  {
    assert s == open + v + (close + rest);
    StartsAtJoin("", open, v + (close + rest));
    StartsAtJoin(open, v, close + rest);
    FindAfter(open, v, close + rest, '<');
    StartsAtJoin(open + v, close, rest);
  }

  /** Reading the cells gives back the sanitized values, and leaves the text that follows. */
  lemma {:induction false} CellsRoundTrip(tag: string, xs: seq<string>, rest: string)
    requires !StartsAt(rest, 0, "<" + tag + ">")
    ensures ParseCells(tag, Cells(tag, xs) + rest) == Some((SanitizeAll(xs), rest))
    decreases |xs|
  {
    if xs == [] {
      assert Cells(tag, xs) + rest == rest;
      assert SanitizeAll(xs) == [];
    } else {
      CellsRoundTrip(tag, xs[1..], rest);
      assert Cells(tag, xs) + rest == Cell(tag, xs[0]) + (Cells(tag, xs[1..]) + rest);
      ParseCell(tag, xs[0], Cells(tag, xs[1..]) + rest);
      SanitizeAllCons(xs);
    }
  }

  /** One step of the row reader, given how the first row's cells are read. */
  lemma ParseRowsStep(s: string, cells: seq<string>, after: string)
    requires StartsAt(s, 0, "<tr>") && ParseCells("td", s[4..]) == Some((cells, after))
    requires StartsAt(after, 0, "</tr>")
    ensures ParseRows(s) ==
      match ParseRows(after[5..])
      case None => None
      case Some(more) => Some(([cells] + more.0, more.1))
  {
  }

  /** The row reader takes the first row of a text apart. */
  lemma ParseRow(cells: seq<string>, more: string)
    ensures ParseRows(Row(cells) + more) ==
      match ParseRows(more)
      case None => None
      case Some(m) => Some(([SanitizeAll(cells)] + m.0, m.1))
  {
    ParseRowText(Cells("td", cells), more);
    CellsRoundTrip("td", cells, "</tr>" + more);
    ParseRowsStep(Row(cells) + more, SanitizeAll(cells), "</tr>" + more);
  }

  lemma ParseRowText(c: string, more: string)
    ensures StartsAt("<tr>" + c + "</tr>" + more, 0, "<tr>")
    ensures ("<tr>" + c + "</tr>" + more)[4..] == c + ("</tr>" + more)
    ensures !StartsAt("</tr>" + more, 0, "<td>") && StartsAt("</tr>" + more, 0, "</tr>")
    ensures ("</tr>" + more)[5..] == more
  {
    StartsAtJoin("", "<tr>", c + "</tr>" + more);
    assert "<tr>" + c + "</tr>" + more == "<tr>" + (c + ("</tr>" + more));
    Mismatch("</tr>" + more, 0, "<td>", 1);
    StartsAtJoin("", "</tr>", more);
  }

  /** Reading the rows gives back the sanitized rows, and leaves the text that follows. */
  lemma {:induction false} RowsRoundTrip(rows: seq<seq<string>>, rest: string)
    requires !StartsAt(rest, 0, "<tr>")
    ensures ParseRows(Rows(rows) + rest) == Some((SanitizeRows(rows), rest))
    decreases |rows|
  {
    if rows == [] {
      assert Rows(rows) + rest == rest;
      assert SanitizeRows(rows) == [];
    } else {
      RowsRoundTrip(rows[1..], rest);
      assert Rows(rows) + rest == Row(rows[0]) + (Rows(rows[1..]) + rest);
      ParseRow(rows[0], Rows(rows[1..]) + rest);
      SanitizeRowsCons(rows);
    }
  }

  /** Reading the table gives back one header per `th` and one row of cells per `tr`, sanitized. */
  lemma TableRoundTrip(headers: seq<string>, rows: seq<seq<string>>)
    ensures ParseTable(TableHtml(headers, rows)) == Some(Table(SanitizeAll(headers), SanitizeRows(rows)))
  {
    var tail := "</tbody></table>";
    var mid := "</tr></thead><tbody>" + (Rows(rows) + tail);
    TableText(Cells("th", headers), Rows(rows));
    CellsRoundTrip("th", headers, mid);
    RowsRoundTrip(rows, tail);
  }

  lemma TableText(h: string, r: string)
    ensures StartsAt("<table><thead><tr>" + h + "</tr></thead><tbody>" + r + "</tbody></table>", 0, "<table><thead><tr>")
    ensures ("<table><thead><tr>" + h + "</tr></thead><tbody>" + r + "</tbody></table>")[18..] ==
      h + ("</tr></thead><tbody>" + (r + "</tbody></table>"))
    ensures !StartsAt("</tr></thead><tbody>" + (r + "</tbody></table>"), 0, "<th>")
    ensures StartsAt("</tr></thead><tbody>" + (r + "</tbody></table>"), 0, "</tr></thead><tbody>")
    ensures ("</tr></thead><tbody>" + (r + "</tbody></table>"))[20..] == r + "</tbody></table>"
    ensures !StartsAt("</tbody></table>", 0, "<tr>")
  {
    var mid := "</tr></thead><tbody>" + (r + "</tbody></table>");
    TableOpen(h, r, mid);
    TableMid(r, mid);
    Mismatch("</tbody></table>", 0, "<tr>", 1);
  }

  lemma TableOpen(h: string, r: string, mid: string)
    requires mid == "</tr></thead><tbody>" + (r + "</tbody></table>")
    ensures StartsAt("<table><thead><tr>" + h + "</tr></thead><tbody>" + r + "</tbody></table>", 0, "<table><thead><tr>")
    ensures ("<table><thead><tr>" + h + "</tr></thead><tbody>" + r + "</tbody></table>")[18..] == h + mid
  {
    assert "<table><thead><tr>" + h + "</tr></thead><tbody>" + r + "</tbody></table>" == "<table><thead><tr>" + (h + mid);
    StartsAtJoin("", "<table><thead><tr>", h + mid);
  }

  lemma TableMid(r: string, mid: string)
    requires mid == "</tr></thead><tbody>" + (r + "</tbody></table>")
    ensures !StartsAt(mid, 0, "<th>")
    ensures StartsAt(mid, 0, "</tr></thead><tbody>") && mid[20..] == r + "</tbody></table>"
  {
    Mismatch(mid, 0, "<th>", 1);
    StartsAtJoin("", "</tr></thead><tbody>", r + "</tbody></table>");
  }

  // ---------------------------------------------------------------- images

  /** The ` name="v"` attribute, written only for a positive size. */
  function SizeAttr(name: string, v: int): string {
    if v > 0 then " " + name + "=\"" + Decimal(v) + "\"" else ""
  }

  /** The image tag: sanitized source and alternative text, then the sizes that are positive. */
  function ImageTag(src: string, alt: string, width: int, height: int): string {
    "<img src=\"" + SanitizeHtml(src) + "\" alt=\"" + SanitizeHtml(alt) + "\""
      + SizeAttr("width", width) + SizeAttr("height", height) + " />"
  }

  /** An image tag as read back; a size is absent when the tag has no attribute for it. */
  datatype Image = Image(src: string, alt: string, width: Option<nat>, height: Option<nat>)

  /** The size given by the value of ` name="v"` at the start of a text, and the rest of the text. */
  function ParseSize(name: string, s: string): Option<(Option<nat>, string)> {
    var key := " " + name + "=\"";
    if !StartsAt(s, 0, key) then Some((None, s))
    else
      match FindFrom(s, |key|, "\"")
      case None => None
      case Some(e) =>
        if IsDecimal(s[|key|..e]) then Some((Some(DecimalValue(s[|key|..e])), s[e + 1..])) else None
  }

  /** Reads an image tag back. */
  function ParseImage(s: string): Option<Image> {
    match ImageStart(s)
    case None => None
    case Some(h) => ImageFrom(h.0, h.1, s[h.2..])
  }

  /** The source and the alternative text of an image tag, and where the text after them starts. */
  function ImageStart(s: string): (r: Option<(string, string, nat)>)
    ensures r.Some? ==> r.value.2 <= |s|
  {
    if !StartsAt(s, 0, "<img src=\"") then None
    else
      match FindFrom(s, 10, "\"")
      case None => None
      case Some(q) =>
        if !StartsAt(s, q, "\" alt=\"") then None
        else
          match FindFrom(s, q + 7, "\"")
          case None => None
          case Some(a) => Some((s[10..q], s[q + 7..a], a + 1))
  }

  /** The rest of the image reader: the two size attributes and the closing ` />`. */
  function ImageFrom(src: string, alt: string, rest: string): Option<Image> {
    match ParseSize("width", rest)
    case None => None
    case Some(w) =>
      match ParseSize("height", w.1)
      case None => None
      case Some(h) => if h.1 == " />" then Some(Image(src, alt, w.0, h.0)) else None
  }

  /** A size attribute is read back as the size when it is positive, and as absent otherwise. */
  lemma SizeRoundTrip(name: string, v: int, rest: string)
    requires !StartsAt(rest, 0, " " + name + "=\"")
    ensures ParseSize(name, SizeAttr(name, v) + rest) == Some((if v > 0 then Some(v) else None, rest))
  {
    if v > 0 {
      var key, d := " " + name + "=\"", Decimal(v);
      var s := SizeAttr(name, v) + rest;
      assert s == key + d + ("\"" + rest);
      assert StartsAt(s, 0, key) by { StartsAtJoin("", key, d + ("\"" + rest)); }
      assert '"' !in d by {
        forall k | 0 <= k < |d| ensures d[k] != '"' { }
      }
      FindAfter(key, d, "\"" + rest, '"');
      assert s[|key|..|key| + |d|] == d by { StartsAtJoin(key, d, "\"" + rest); }
      assert s[|key| + |d| + 1..] == rest;
      DecimalRoundTrip(v);
    } else {
      assert SizeAttr(name, v) + rest == rest;
    }
  }

  /** Once the head of the tag is read, the rest is read by `ImageFrom`. */
  lemma ParseImageStep(s: string, src: string, alt: string, rest: string, e: nat)
    requires ImageStart(s) == Some((src, alt, e)) && e <= |s| && rest == s[e..]
    ensures ParseImage(s) == ImageFrom(src, alt, rest)
  {
  }

  lemma ImageStartIs(s: string, q: nat, a: nat)
    requires 10 <= q && q + 7 <= a < |s|
    requires StartsAt(s, 0, "<img src=\"") && FindFrom(s, 10, "\"") == Some(q) && StartsAt(s, q, "\" alt=\"")
    requires FindFrom(s, q + 7, "\"") == Some(a)
    ensures ImageStart(s) == Some((s[10..q], s[q + 7..a], a + 1))
  {
  }

  /** The reader finds the source and the alternative text between their quotes. */
  lemma ImageHead(u: string, t: string, r: string)
    requires '"' !in u && '"' !in t
    ensures ParseImage("<img src=\"" + u + "\" alt=\"" + t + "\"" + r) == ImageFrom(u, t, r)
  {
    var s := "<img src=\"" + u + "\" alt=\"" + t + "\"" + r;
    ImageSrcFacts(u, t, r);
    ImageAltFacts(u, t, r);
    ImageStartIs(s, 10 + |u|, 17 + |u| + |t|);
    ParseImageStep(s, u, t, r, 18 + |u| + |t|);
  }

  lemma ImageSrcFacts(u: string, t: string, r: string)
    requires '"' !in u
    ensures var s := "<img src=\"" + u + "\" alt=\"" + t + "\"" + r;
      StartsAt(s, 0, "<img src=\"") && s[10..10 + |u|] == u && FindFrom(s, 10, "\"") == Some(10 + |u|) &&
      StartsAt(s, 10 + |u|, "\" alt=\"")
  {
    var s := "<img src=\"" + u + "\" alt=\"" + t + "\"" + r;
    assert s == "<img src=\"" + u + ("\" alt=\"" + t + "\"" + r);
    StartsAtJoin("", "<img src=\"", u + ("\" alt=\"" + t + "\"" + r));
    StartsAtJoin("<img src=\"", u, "\" alt=\"" + t + "\"" + r);
    FindAfter("<img src=\"", u, "\" alt=\"" + t + "\"" + r, '"');
    assert s == "<img src=\"" + u + "\" alt=\"" + (t + "\"" + r);
    StartsAtJoin("<img src=\"" + u, "\" alt=\"", t + "\"" + r);
  }

  lemma ImageAltFacts(u: string, t: string, r: string)
    requires '"' !in t
    ensures var s := "<img src=\"" + u + "\" alt=\"" + t + "\"" + r;
      var a := 17 + |u| + |t|;
      a < |s| && FindFrom(s, 17 + |u|, "\"") == Some(a) && s[17 + |u|..a] == t && s[a + 1..] == r
  {
    var s := "<img src=\"" + u + "\" alt=\"" + t + "\"" + r;
    assert s == "<img src=\"" + u + "\" alt=\"" + t + ("\"" + r);
    FindAfter("<img src=\"" + u + "\" alt=\"", t, "\"" + r, '"');
    StartsAtJoin("<img src=\"" + u + "\" alt=\"", t, "\"" + r);
  }


  /** The sizes after the alternative text are read back, and the tag is closed. */
  lemma ImageSizes(width: int, height: int)
    ensures ParseSize("width", SizeAttr("width", width) + SizeAttr("height", height) + " />") ==
      Some((if width > 0 then Some(width) else None, SizeAttr("height", height) + " />"))
    ensures ParseSize("height", SizeAttr("height", height) + " />") ==
      Some((if height > 0 then Some(height) else None, " />"))
  {
    var hs := SizeAttr("height", height) + " />";
    HeightNotWidth(height, hs);
    WidthRead(width, hs, SizeAttr("width", width) + SizeAttr("height", height) + " />");
    HeightRead(height);
  }

  lemma HeightRead(height: int)
    ensures ParseSize("height", SizeAttr("height", height) + " />") == Some((if height > 0 then Some(height) else None, " />"))
  {
    Mismatch(" />", 0, " height=\"", 1);
    SizeRoundTrip("height", height, " />");
  }

  /** What follows the width attribute is not read as another width. */
  lemma HeightNotWidth(height: int, hs: string)
    requires hs == SizeAttr("height", height) + " />"
    ensures !StartsAt(hs, 0, " width=\"")
  {
    assert hs[1] == 'h' || hs[1] == '/';
    Mismatch(hs, 0, " width=\"", 1);
  }

  lemma WidthRead(width: int, hs: string, all: string)
    requires all == SizeAttr("width", width) + hs && !StartsAt(hs, 0, " width=\"")
    ensures ParseSize("width", all) == Some((if width > 0 then Some(width) else None, hs))
  {
    SizeRoundTrip("width", width, hs);
  }

  /**
    * Reading the image tag gives back the sanitized source and alternative text, and a width
    * (height) exactly when the width (height) given is positive.
    */
  lemma ImageRoundTrip(src: string, alt: string, width: int, height: int)
    ensures ParseImage(ImageTag(src, alt, width, height)) ==
      Some(Image(SanitizeHtml(src), SanitizeHtml(alt),
        if width > 0 then Some(width) else None, if height > 0 then Some(height) else None))
  {
    var r := SizeAttr("width", width) + SizeAttr("height", height) + " />";
    var u, t := SanitizeHtml(src), SanitizeHtml(alt);
    assert ImageTag(src, alt, width, height) == "<img src=\"" + u + "\" alt=\"" + t + "\"" + r;
    ImageHead(u, t, r);
    ImageSizes(width, height);
  }
}
