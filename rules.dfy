/**
  * What the rules that are not line-anchored do: the underline headers, the list wrap, bold,
  * italic, links and the collapse of blank lines. Each is stated on the whole `preg_replace`
  * scan, not on the matcher alone.
  */
module SpanRules {
  import opened Wrappers
  import opened Text
  import opened Rewrite

  /** `**x**` becomes a strong element when the body has no asterisk. */
  lemma BoldWhole(x: string)
    requires |x| > 0 && '*' !in x
    ensures ReplaceAll(Bold, "**" + x + "**") == "<strong>" + x + "</strong>"
  {
    var s := "**" + x + "**";
    var n := |x| + 2;
    assert s[0..2] == "**" && s[n..n + 2] == "**" && s[2..n] == x;
    forall k | 3 <= k < n
      ensures !StartsAt(s, k, "**")
    {
      assert s[k] == x[k - 2];
      NotStartsAt(s, k, "**");
    }
    FindFromIs(s, 3, "**", n);
    assert MatchAt(Bold, s, 0) == Some(Hit(|s|, "<strong>" + x + "</strong>"));
    assert ReplaceFrom(Bold, s, 0) == "<strong>" + x + "</strong>" + ReplaceFrom(Bold, s, |s|);
  }

  /** `*x*` becomes an em element when the body has no asterisk. */
  lemma ItalicWhole(x: string)
    requires |x| > 0 && '*' !in x
    ensures ReplaceAll(Italic, "*" + x + "*") == "<em>" + x + "</em>"
  {
    var s := "*" + x + "*";
    var n := |x| + 1;
    assert s[0] == '*' && s[n..n + 1] == "*" && s[1..n] == x;
    forall k | 2 <= k < n
      ensures !StartsAt(s, k, "*")
    {
      assert s[k] == x[k - 1];
      NotStartsAt(s, k, "*");
    }
    FindFromIs(s, 2, "*", n);
    assert MatchAt(Italic, s, 0) == Some(Hit(|s|, "<em>" + x + "</em>"));
    assert ReplaceFrom(Italic, s, 0) == "<em>" + x + "</em>" + ReplaceFrom(Italic, s, |s|);
  }

  /** A text without asterisks has nothing for the italic rule. */
  lemma ItalicWithoutStars(s: string)
    requires '*' !in s
    ensures ReplaceAll(Italic, s) == s
  {
    forall p | 0 <= p < |s|
      ensures MatchAt(Italic, s, p).None?
    {
      assert s[p] != '*';
    }
    NoMatchUnchanged(Italic, s);
  }

  /** A text without asterisks has nothing for the bold rule. */
  lemma BoldWithoutStars(s: string)
    requires '*' !in s
    ensures ReplaceAll(Bold, s) == s
  {
    forall p | 0 <= p < |s|
      ensures MatchAt(Bold, s, p).None?
    {
      NotStartsAt(s, p, "**");
    }
    NoMatchUnchanged(Bold, s);
  }

  /**
    * Without the list rule before it, the italic rule pairs the marker of one `* ` item with
    * the marker of the next: the em element spans the line break and leaves the second
    * body outside it.
    */
  lemma ItalicOnListItems(a: string, b: string)
    requires '*' !in a && '\n' !in a && '*' !in b
    ensures ReplaceAll(Italic, "* " + a + "\n* " + b) == "<em> " + a + "\n</em> " + b
  {
    var s := "* " + a + "\n* " + b;
    ItalicListMatch(s, a, b);
    HitStep(Italic, s, 0);
    ItalicQuietTail(s, |a| + 4, " " + b);
    CopyRunAs(Italic, s, |a| + 4, |s|, " " + b);
    assert ReplaceFrom(Italic, s, |s|) == "";
  }

  lemma ItalicQuietTail(s: string, m: nat, tail: string)
    requires m <= |s| && s[m..] == tail && '*' !in tail
    ensures s[m..|s|] == tail && Quiet(Italic, s, m, |s|)
  {
    forall p | m <= p < |s|
      ensures MatchAt(Italic, s, p).None?
    {
      assert s[p] == tail[p - m];
    }
  }

  lemma ItalicListMatch(s: string, a: string, b: string)
    requires s == "* " + a + "\n* " + b && '*' !in a
    ensures MatchAt(Italic, s, 0) == Some(Hit(|a| + 4, "<em> " + a + "\n</em>"))
    ensures s[|a| + 4..] == " " + b
  {
    var n := |a| + 3;
    assert s[n..n + 1] == "*" && s[1..n] == " " + a + "\n";
    forall k | 2 <= k < n
      ensures !StartsAt(s, k, "*")
    {
      if k < n - 1 {
        assert s[k] == a[k - 2];
      }
      NotStartsAt(s, k, "*");
    }
    FindFromIs(s, 2, "*", n);
    assert "<em>" + s[1..n] + "</em>" == "<em> " + a + "\n</em>";
  }

  /**
    * Bold runs before italic, so `**x**` ends as a strong element with no em inside; the italic
    * rule alone would pair the first asterisk with the third and leave the last one.
    */
  lemma {:induction false} BoldBeforeItalic(x: string)
    requires |x| > 0 && '*' !in x
    ensures ApplyAll([Bold, Italic], "**" + x + "**") == "<strong>" + x + "</strong>"
    ensures ReplaceAll(Italic, "**" + x + "**") == "<em>*" + x + "</em>*"
  {
    BoldWhole(x);
    var b := "<strong>" + x + "</strong>";
    assert '*' !in b;
    ItalicWithoutStars(b);
    assert ApplyAll([Bold, Italic], "**" + x + "**") == ApplyAll([Italic], b);
    assert ApplyAll([Italic], b) == ApplyAll([], ReplaceAll(Italic, b));
    ItalicOnDoubleStars(x);
  }

  /** The italic rule on `**x**`: the body runs from the second asterisk to the third. */
  lemma ItalicOnDoubleStars(x: string)
    requires |x| > 0 && '*' !in x
    ensures ReplaceAll(Italic, "**" + x + "**") == "<em>*" + x + "</em>*"
  {
    var s := "**" + x + "**";
    var n := |x| + 2;
    assert s[n..n + 1] == "*" && s[1..n] == "*" + x;
    forall k | 2 <= k < n
      ensures !StartsAt(s, k, "*")
    {
      assert s[k] == x[k - 2];
      NotStartsAt(s, k, "*");
    }
    FindFromIs(s, 2, "*", n);
    assert "<em>" + s[1..n] + "</em>" == "<em>*" + x + "</em>";
    assert MatchAt(Italic, s, 0) == Some(Hit(n + 1, "<em>*" + x + "</em>"));
    assert MatchAt(Italic, s, n + 1).None?;
    assert ReplaceFrom(Italic, s, n + 1) == "*" + ReplaceFrom(Italic, s, n + 2);
    assert ReplaceFrom(Italic, s, 0) == "<em>*" + x + "</em>" + ReplaceFrom(Italic, s, n + 1);
  }

  /** `[t](u)` becomes an anchor whose href is `u` and whose content is `t`. */
  lemma LinkWhole(t: string, u: string)
    requires |t| > 0 && ']' !in t && |u| > 0 && ')' !in u
    ensures ReplaceAll(Link, "[" + t + "](" + u + ")") == "<a href=\"" + u + "\">" + t + "</a>"
  {
    var s := "[" + t + "](" + u + ")";
    LinkWholeAt(t, u);
    HitStep(Link, s, 0);
    assert ReplaceFrom(Link, s, |s|) == "";
  }

  lemma LinkWholeAt(t: string, u: string)
    requires |t| > 0 && ']' !in t && |u| > 0 && ')' !in u
    ensures var s := "[" + t + "](" + u + ")";
      MatchAt(Link, s, 0) == Some(Hit(|s|, "<a href=\"" + u + "\">" + t + "</a>"))
  {
    var s := "[" + t + "](" + u + ")";
    var a := |t| + 1;
    var b := a + 2 + |u|;
    assert forall k :: 1 <= k < a ==> s[k] == t[k - 1];
    assert forall k :: a + 2 <= k < b ==> s[k] == u[k - a - 2];
    assert s[1..a] == t && s[a + 2..b] == u;
    LinkFires(s, 0, a, b);
  }

  /** The character an underline is made of. */
  function UnderlineChar(r: Rule): char
    requires r.SetextH1? || r.SetextH2?
  {
    if r.SetextH1? then '=' else '-'
  }

  /**
    * A match of an underline header rule is a non-empty line at a line start, the underline
    * run below it and white space that reaches a line end; the line becomes the header.
    */
  lemma SetextShape(r: Rule, s: string, i: nat)
    requires r.SetextH1? || r.SetextH2?
    requires i < |s| && MatchAt(r, s, i).Some?
    ensures AtLineStart(s, i)
    ensures var e := LineEnd(s, i); var h := MatchAt(r, s, i).value;
      i < e && e + 1 < |s| && s[e + 1] == UnderlineChar(r) &&
      h.out == Open(r) + s[i..e] + Close(r) &&
      (h.end == |s| || s[h.end] == '\n') &&
      forall k :: RunEnd(s, e + 1, UnderlineChar(r)) <= k < h.end ==> IsSpace(s[k])
  {
  }

  /**
    * The converse of `SetextShape`: a non-empty line at a line start, an underline run below
    * it and white space up to a line end make a match that writes the header around the line.
    * The white space is greedy, so the match reaches at least as far as that line end.
    */
  lemma SetextFires(r: Rule, s: string, i: nat, t: nat)
    requires r.SetextH1? || r.SetextH2?
    requires i < |s| && AtLineStart(s, i)
    requires i < LineEnd(s, i) && LineEnd(s, i) + 1 < |s| && s[LineEnd(s, i) + 1] == UnderlineChar(r)
    requires RunEnd(s, LineEnd(s, i) + 1, UnderlineChar(r)) <= t <= |s| && (t == |s| || s[t] == '\n')
    requires forall k :: RunEnd(s, LineEnd(s, i) + 1, UnderlineChar(r)) <= k < t ==> IsSpace(s[k])
    ensures MatchAt(r, s, i).Some?
    ensures MatchAt(r, s, i).value.out == Open(r) + s[i..LineEnd(s, i)] + Close(r)
    ensures t <= MatchAt(r, s, i).value.end
  {
    var e, c := LineEnd(s, i), UnderlineChar(r);
    SetextMatch(r, s, i);
    SetextFiresAt(s, i, c, Open(r), Close(r), e, RunEnd(s, e + 1, c), t);
  }

  /** `SetextFires` for one underline character, with the line end `e` and the end `q` of the run named. */
  lemma SetextFiresAt(s: string, i: nat, c: char, open: string, close: string, e: nat, q: nat, t: nat)
    requires i < |s| && AtLineStart(s, i) && e == LineEnd(s, i)
    requires i < e && e + 1 < |s| && s[e + 1] == c && q == RunEnd(s, e + 1, c)
    requires q <= t <= |s| && (t == |s| || s[t] == '\n')
    requires forall k :: q <= k < t ==> IsSpace(s[k])
    ensures SetextAt(s, i, c, open, close).Some?
    ensures SetextAt(s, i, c, open, close).value.out == open + s[i..e] + close
    ensures t <= SetextAt(s, i, c, open, close).value.end
  {
    assert q != e + 1;
    var o := SpaceEnd(s, q, t);
    SetextAtIs(s, i, c, open, close, o);
  }

  /** The two underline header rules are the one matcher with their own character and tags. */
  lemma SetextMatch(r: Rule, s: string, i: nat)
    requires r.SetextH1? || r.SetextH2?
    requires i < |s|
    ensures MatchAt(r, s, i) == SetextAt(s, i, UnderlineChar(r), Open(r), Close(r))
  {
  }

  /**
    * Where the greedy `\s*$` stops: the end of the white space run if it reaches the end of
    * the text, and otherwise the last line feed inside the run; not before any line end `t`
    * that only white space leads to.
    */
  lemma SpaceEnd(s: string, q: nat, t: nat) returns (o: nat)
    requires q <= t <= |s| && (t == |s| || s[t] == '\n')
    requires forall k :: q <= k < t ==> IsSpace(s[k])
    ensures t <= o
    ensures (if SpaceRunEnd(s, q) == |s| then Some(SpaceRunEnd(s, q))
      else LastBelow(s, q, SpaceRunEnd(s, q), "\n")) == Some(o)
  {
    var w := SpaceRunEnd(s, q);
    if w == |s| {
      o := w;
    } else {
      assert t < w;
      assert StartsAt(s, t, "\n") by { assert s[t..t + 1] == "\n"; }
      o := LastBelow(s, q, w, "\n").value;
    }
  }

  /** The underline header matcher, once the end of the white space is known. */
  lemma SetextAtIs(s: string, i: nat, c: char, open: string, close: string, o: nat)
    requires i < |s| && AtLineStart(s, i) && i < LineEnd(s, i) < |s|
    requires RunEnd(s, LineEnd(s, i) + 1, c) != LineEnd(s, i) + 1
    requires var q := RunEnd(s, LineEnd(s, i) + 1, c);
      (if SpaceRunEnd(s, q) == |s| then Some(SpaceRunEnd(s, q)) else LastBelow(s, q, SpaceRunEnd(s, q), "\n")) == Some(o)
    ensures SetextAt(s, i, c, open, close) == Some(Hit(o, open + s[i..LineEnd(s, i)] + close))
  {
  }

  /**
    * A line, an underline of `=` (`-`) and white space only, blank lines included, make one
    * h1 (h2): the trailing white space is consumed with the match.
    */
  lemma SetextWhole(r: Rule, t: string, u: string, w: string)
    requires r.SetextH1? || r.SetextH2?
    requires |t| > 0 && '\n' !in t
    requires |u| > 0 && forall k :: 0 <= k < |u| ==> u[k] == UnderlineChar(r)
    requires forall k :: 0 <= k < |w| ==> IsSpace(w[k])
    ensures ReplaceAll(r, t + "\n" + u + w) == Open(r) + t + Close(r)
  {
    var s := t + "\n" + u + w;
    var e, c := |t|, UnderlineChar(r);
    SetextWholeLine(s, t, u, w);
    var q := SetextWholeRun(s, t, u, w, c);
    SetextFires(r, s, 0, |s|);
    assert s[0..e] == t;
    HitStep(r, s, 0);
    assert ReplaceFrom(r, s, |s|) == "";
  }

  lemma SetextWholeRun(s: string, t: string, u: string, w: string, c: char) returns (q: nat)
    requires s == t + "\n" + u + w && |u| > 0 && !IsSpace(c)
    requires forall k :: 0 <= k < |u| ==> u[k] == c
    requires forall k :: 0 <= k < |w| ==> IsSpace(w[k])
    ensures q == |t| + 1 + |u| && RunEnd(s, |t| + 1, c) == q && s[|t| + 1] == c
    ensures forall k :: q <= k < |s| ==> IsSpace(s[k])
  {
    var e := |t|;
    q := e + 1 + |u|;
    assert forall k :: e + 1 <= k < q ==> s[k] == u[k - e - 1];
    assert q < |s| ==> s[q] == w[0];
    RunEndIs(s, e + 1, c, q);
    assert forall k :: q <= k < |s| ==> s[k] == w[k - q];
  }

  lemma SetextWholeLine(s: string, t: string, u: string, w: string)
    requires s == t + "\n" + u + w && '\n' !in t
    ensures LineEnd(s, 0) == |t| && s[..|t|] == t
  {
    assert s[|t|] == '\n';
    assert forall k :: 0 <= k < |t| ==> s[k] == t[k];
    LineEndIs(s, 0, |t|);
  }

  /** The line end is the first line feed. */
  lemma LineEndIs(s: string, i: nat, e: nat)
    requires i <= e < |s| && s[e] == '\n' && forall k :: i <= k < e ==> s[k] != '\n'
    ensures LineEnd(s, i) == e
  {
  }

  /** A run of `c` stops at the first character that is not `c`. */
  lemma RunEndIs(s: string, i: nat, c: char, q: nat)
    requires i <= q <= |s| && (q == |s| || s[q] != c) && forall k :: i <= k < q ==> s[k] == c
    ensures RunEnd(s, i, c) == q
  {
  }

  /** White space up to the end of the text is one run. */
  lemma SpaceRunEndIs(s: string, i: nat)
    requires i <= |s| && forall k :: i <= k < |s| ==> IsSpace(s[k])
    ensures SpaceRunEnd(s, i) == |s|
  {
  }

  /** Before the first `\n<li>` the list wrap copies the text. */
  lemma WrapPrefix(s: string, i: nat)
    requires FindFrom(s, 0, "\n<li>") == Some(i)
    ensures ReplaceAll(ListWrap, s) == s[..i] + ReplaceFrom(ListWrap, s, i)
  {
    forall p | 0 <= p < i
      ensures MatchAt(ListWrap, s, p).None?
    {
    }
    CopyRun(ListWrap, s, 0, i);
    assert s[0..i] == s[..i];
  }

  /** After the last `</li>\n` the list wrap copies the text. */
  lemma WrapSuffix(s: string, i: nat, j: nat)
    requires i + 5 <= |s| && LastBelow(s, i + 5, |s|, "</li>\n") == Some(j)
    ensures ReplaceFrom(ListWrap, s, j + 6) == s[j + 6..]
  {
    forall p | j + 6 <= p < |s|
      ensures MatchAt(ListWrap, s, p).None?
    {
    }
    CopyRun(ListWrap, s, j + 6, |s|);
    assert s[j + 6..|s|] == s[j + 6..];
  }

  /** Without a `</li>\n` after the first `\n<li>` there is none after any later one. */
  lemma WrapNone(s: string, i: nat)
    requires FindFrom(s, 0, "\n<li>") == Some(i) && i + 5 <= |s|
    requires LastBelow(s, i + 5, |s|, "</li>\n").None?
    ensures ReplaceAll(ListWrap, s) == s
  {
    forall p | 0 <= p < |s|
      ensures MatchAt(ListWrap, s, p).None?
    {
      if StartsAt(s, p, "\n<li>") {
        LastBelowNarrower(s, i + 5, p + 5, "</li>\n");
      }
    }
    NoMatchUnchanged(ListWrap, s);
  }

  /** Without a `\n<li>` the list wrap changes nothing. */
  lemma WrapAbsent(s: string)
    requires FindFrom(s, 0, "\n<li>").None?
    ensures ReplaceAll(ListWrap, s) == s
  {
    forall p | 0 <= p < |s|
      ensures MatchAt(ListWrap, s, p).None?
    {
    }
    NoMatchUnchanged(ListWrap, s);
  }

  /**
    * The list wrap adds exactly one `<ul>` element: around the span from the first `\n<li>`
    * to the last `</li>\n` after it.
    */
  lemma WrapOnce(s: string, i: nat, j: nat)
    requires FindFrom(s, 0, "\n<li>") == Some(i) && i + 5 <= |s|
    requires LastBelow(s, i + 5, |s|, "</li>\n") == Some(j)
    ensures ReplaceAll(ListWrap, s) == s[..i] + "\n<ul>\n" + s[i..j + 6] + "</ul>\n" + s[j + 6..]
  {
    WrapPrefix(s, i);
    WrapHit(s, i, j);
    Append5(s[..i], "\n<ul>\n", s[i..j + 6], "</ul>\n", s[j + 6..]);
  }

  /** At the first `\n<li>` the list wrap writes the whole list and copies the rest. */
  lemma WrapHit(s: string, i: nat, j: nat)
    requires FindFrom(s, 0, "\n<li>") == Some(i) && i + 5 <= |s|
    requires LastBelow(s, i + 5, |s|, "</li>\n") == Some(j)
    ensures ReplaceFrom(ListWrap, s, i) == ("\n<ul>\n" + s[i..j + 6] + "</ul>\n") + s[j + 6..]
  {
    WrapMatch(s, i, j);
    HitStep(ListWrap, s, i);
    WrapSuffix(s, i, j);
  }

  lemma WrapMatch(s: string, i: nat, j: nat)
    requires FindFrom(s, 0, "\n<li>") == Some(i) && i + 5 <= |s|
    requires LastBelow(s, i + 5, |s|, "</li>\n") == Some(j)
    ensures MatchAt(ListWrap, s, i) == Some(Hit(j + 6, "\n<ul>\n" + s[i..j + 6] + "</ul>\n"))
  {
    WrapAtIs(s, i, j);
  }

  lemma WrapAtIs(s: string, i: nat, j: nat)
    requires StartsAt(s, i, "\n<li>") && i + 5 <= |s|
    requires LastBelow(s, i + 5, |s|, "</li>\n") == Some(j)
    ensures WrapAt(s, i) == Some(Hit(j + 6, "\n<ul>\n" + s[i..j + 6] + "</ul>\n"))
  {
  }

  lemma Append5(a: string, b: string, c: string, d: string, e: string)
    ensures a + ((b + c + d) + e) == a + b + c + d + e
  {
  }

  /** Searching a smaller range finds nothing when the larger one found nothing. */
  lemma LastBelowNarrower(s: string, lo: nat, lo': nat, p: string)
    requires lo <= lo' <= |s| && LastBelow(s, lo, |s|, p).None?
    ensures LastBelow(s, lo', |s|, p).None?
  {
  }

  /** No two line feeds are adjacent. */
  predicate NoBlankLine(s: string) {
    forall k :: 0 < k < |s| ==> !(s[k - 1] == '\n' && s[k] == '\n')
  }

  /**
    * The collapse scan from `i` leaves no two adjacent line feeds and starts with the
    * character at `i`; at the end of the text it yields nothing.
    */
  lemma {:induction false} CollapseFrom(s: string, i: nat)
    requires i <= |s|
    ensures var r := ReplaceFrom(CollapseNewlines, s, i);
      NoBlankLine(r) && (i == |s| ==> r == "") && (i < |s| ==> |r| > 0 && r[0] == s[i])
    decreases |s| - i
  {
    if i < |s| {
      var m := MatchAt(CollapseNewlines, s, i);
      var next := if m.Some? then m.value.end else i + 1;
      CollapseFrom(s, next);
      var rest := ReplaceFrom(CollapseNewlines, s, next);
      var r := ReplaceFrom(CollapseNewlines, s, i);
      assert r == [s[i]] + rest;
      assert next < |s| ==> s[i] != '\n' || s[next] != '\n';
      forall k | 0 < k < |r|
        ensures !(r[k - 1] == '\n' && r[k] == '\n')
      {
        if k > 1 {
          assert r[k - 1] == rest[k - 2] && r[k] == rest[k - 1];
        }
      }
    }
  }

  /** The collapse leaves no blank line. */
  lemma CollapseNoBlankLine(s: string)
    ensures NoBlankLine(ReplaceAll(CollapseNewlines, s))
  {
    CollapseFrom(s, 0);
  }

  /** A text without blank lines is left as it is by the collapse. */
  lemma {:induction false} CollapseKeeps(s: string, i: nat)
    requires i <= |s| && NoBlankLine(s)
    ensures ReplaceFrom(CollapseNewlines, s, i) == s[i..]
    decreases |s| - i
  {
    if i < |s| {
      if s[i] == '\n' {
        assert i + 1 < |s| ==> s[i + 1] != '\n';
        assert RunEnd(s, i, '\n') == i + 1;
      }
      CollapseKeeps(s, i + 1);
      assert s[i..] == [s[i]] + s[i + 1..];
    }
  }

  /** Collapsing twice is collapsing once. */
  lemma CollapseIdempotent(s: string)
    ensures ReplaceAll(CollapseNewlines, ReplaceAll(CollapseNewlines, s)) == ReplaceAll(CollapseNewlines, s)
  {
    var r := ReplaceAll(CollapseNewlines, s);
    CollapseNoBlankLine(s);
    CollapseKeeps(r, 0);
  }

  /** The literal text a rule writes around or in place of its captures. */
  function Template(r: Rule): string {
    match r
    case Link => "<a href=\"\"></a>"
    case ListWrap => "\n<ul>\n</ul>\n"
    case CollapseNewlines => "\n"
    case _ => Open(r) + Close(r)
  }

  /** A match writes only characters of the subject and of the rule's template. */
  lemma HitAbsent(r: Rule, s: string, i: nat, c: char)
    requires i < |s| && c !in s && c !in Template(r) && MatchAt(r, s, i).Some?
    ensures c !in MatchAt(r, s, i).value.out
  {
    if r.Link? {
      LinkHitAbsent(s, i, c);
    } else if r.ListWrap? {
      WrapHitAbsent(s, i, c);
    } else if IsLineRule(r) {
      LineHitAbsent(r, s, i, c);
    } else {
      SpanHitAbsent(r, s, i, c);
    }
  }

  /** The list-wrap case of `HitAbsent`. */
  lemma WrapHitAbsent(s: string, i: nat, c: char)
    requires i < |s| && c !in s && c !in Template(ListWrap) && MatchAt(ListWrap, s, i).Some?
    ensures c !in MatchAt(ListWrap, s, i).value.out
  {
    assert c !in "\n<ul>\n" && c !in "</ul>\n";
  }

  /** The remaining cases of `HitAbsent`: underlined headers and emphasis. */
  lemma SpanHitAbsent(r: Rule, s: string, i: nat, c: char)
    requires !r.Link? && !r.ListWrap? && !IsLineRule(r)
    requires i < |s| && c !in s && c !in Template(r) && MatchAt(r, s, i).Some?
    ensures c !in MatchAt(r, s, i).value.out
  {
    assert c !in Open(r) && c !in Close(r);
  }

  /** The link case of `HitAbsent`. */
  lemma LinkHitAbsent(s: string, i: nat, c: char)
    requires i < |s| && c !in s && c !in Template(Link) && MatchAt(Link, s, i).Some?
    ensures c !in MatchAt(Link, s, i).value.out
  {
    var a, b := LinkParts(s, i);
    assert c !in s[i + 1..a] && c !in s[a + 2..b];
    assert c !in "<a href=\"" && c !in "\">" && c !in "</a>";
  }

  /** The line-anchored case of `HitAbsent`. */
  lemma LineHitAbsent(r: Rule, s: string, i: nat, c: char)
    requires IsLineRule(r) && i < |s| && c !in s && c !in Open(r) + Close(r) && MatchAt(r, s, i).Some?
    ensures c !in MatchAt(r, s, i).value.out
  {
    assert MatchAt(r, s, i) == LineAt(r, s, i);
    var line := s[i..LineEnd(s, i)];
    assert c !in line;
    if !r.Paragraph? {
      assert c !in line[|Marker(r)|..];
    }
  }

  /** A character neither in the subject nor in the rule's template is not in the result. */
  lemma {:induction false} ReplaceAbsent(r: Rule, s: string, i: nat, c: char)
    requires i <= |s| && c !in s && c !in Template(r)
    ensures c !in ReplaceFrom(r, s, i)
    decreases |s| - i
  {
    if i < |s| {
      var m := MatchAt(r, s, i);
      ReplaceAbsent(r, s, if m.Some? then m.value.end else i + 1, c);
      AbsentStep(r, s, i, c);
    }
  }

  lemma AbsentStep(r: Rule, s: string, i: nat, c: char)
    requires i < |s| && c !in s && c !in Template(r)
    requires MatchAt(r, s, i).Some? ==> c !in ReplaceFrom(r, s, MatchAt(r, s, i).value.end)
    requires MatchAt(r, s, i).None? ==> c !in ReplaceFrom(r, s, i + 1)
    ensures c !in ReplaceFrom(r, s, i)
  {
    if MatchAt(r, s, i).Some? {
      HitAbsent(r, s, i, c);
      HitAbsentStep(r, s, i, c);
    } else {
      CopyAbsentStep(r, s, i, c);
    }
  }

  lemma HitAbsentStep(r: Rule, s: string, i: nat, c: char)
    requires i < |s| && MatchAt(r, s, i).Some? && c !in MatchAt(r, s, i).value.out
    requires c !in ReplaceFrom(r, s, MatchAt(r, s, i).value.end)
    ensures c !in ReplaceFrom(r, s, i)
  {
    HitStep(r, s, i);
    AbsentJoin(c, ReplaceFrom(r, s, i), MatchAt(r, s, i).value.out, ReplaceFrom(r, s, MatchAt(r, s, i).value.end));
  }

  lemma CopyAbsentStep(r: Rule, s: string, i: nat, c: char)
    requires i < |s| && MatchAt(r, s, i).None? && c != s[i] && c !in ReplaceFrom(r, s, i + 1)
    ensures c !in ReplaceFrom(r, s, i)
  {
    CopyStep(r, s, i);
    AbsentJoin(c, ReplaceFrom(r, s, i), [s[i]], ReplaceFrom(r, s, i + 1));
  }

  lemma AbsentJoin(c: char, x: string, a: string, b: string)
    requires x == a + b && c !in a && c !in b
    ensures c !in x
  {
  }

  /** The same through a sequence of rules. */
  lemma {:induction false} ApplyAllAbsent(rules: seq<Rule>, t: string, c: char)
    requires c !in t && forall k :: 0 <= k < |rules| ==> c !in Template(rules[k])
    ensures c !in ApplyAll(rules, t)
    decreases |rules|
  {
    if rules != [] {
      ReplaceAbsent(rules[0], t, 0, c);
      ApplyAllAbsent(rules[1..], ReplaceAll(rules[0], t), c);
    }
  }
}
