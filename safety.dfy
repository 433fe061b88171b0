/**
  * The escape runs first, so the text the rules see has no `<` at all; each rule then adds
  * only its own tags and moves whole tags around. Hence every `<` of the transformer's output
  * begins one of the tags the rules write.
  */
module MarkupSafety {
  import opened Text
  import opened Rewrite

  /** The tags the rules write: h1-h3, ul, li, strong, em, a (up to its attribute value) and p. */
  const MarkupTags: seq<string> := [
    "<h1>", "</h1>", "<h2>", "</h2>", "<h3>", "</h3>", "<ul>", "</ul>", "<li>", "</li>",
    "<strong>", "</strong>", "<em>", "</em>", "<a href=\"", "</a>", "<p>", "</p>"]

  /** Characters that end a capture or start a match; none occurs inside a tag. */
  predicate Delimiter(c: char) {
    c == '\n' || c == '*' || c == '[' || c == ']' || c == ')' || c == '<'
  }

  predicate WellFormedTag(t: string) {
    |t| > 1 && t[0] == '<' && forall m :: 0 < m < |t| ==> !Delimiter(t[m])
  }

  predicate TagAt(s: string, k: nat) {
    exists j :: 0 <= j < |MarkupTags| && StartsAt(s, k, MarkupTags[j])
  }

  /** Every `<` of `s` begins one of the markup tags. */
  predicate Safe(s: string) {
    forall k :: 0 <= k < |s| && s[k] == '<' ==> TagAt(s, k)
  }

  lemma TagsWellFormed(j: nat)
    requires j < |MarkupTags|
    ensures WellFormedTag(MarkupTags[j])
  {
  }

  lemma SafeTag(j: nat)
    requires j < |MarkupTags|
    ensures Safe(MarkupTags[j])
  {
    var t := MarkupTags[j];
    TagsWellFormed(j);
    assert StartsAt(t, 0, MarkupTags[j]);
  }

  lemma SafeWithoutLt(s: string)
    requires '<' !in s
    ensures Safe(s)
  {
  }

  lemma SafeConcat(a: string, b: string)
    requires Safe(a) && Safe(b)
    ensures Safe(a + b)
  {
    var ab := a + b;
    forall k | 0 <= k < |ab| && ab[k] == '<'
      ensures TagAt(ab, k)
    {
      if k < |a| {
        assert a[k] == '<';
        var j :| 0 <= j < |MarkupTags| && StartsAt(a, k, MarkupTags[j]);
        assert ab[k..k + |MarkupTags[j]|] == a[k..k + |MarkupTags[j]|];
        assert StartsAt(ab, k, MarkupTags[j]);
      } else {
        assert b[k - |a|] == '<';
        var j :| 0 <= j < |MarkupTags| && StartsAt(b, k - |a|, MarkupTags[j]);
        assert ab[k..k + |MarkupTags[j]|] == b[k - |a|..k - |a| + |MarkupTags[j]|];
        assert StartsAt(ab, k, MarkupTags[j]);
      }
    }
  }

  lemma SafeConcat3(a: string, b: string, c: string)
    requires Safe(a) && Safe(b) && Safe(c)
    ensures Safe(a + b + c)
  {
    SafeConcat(a, b);
    SafeConcat(a + b, c);
  }

  /**
    * A slice of a safe text is safe when it does not cut a tag: it ends at the end of the
    * text, just before a delimiter, or just after a line feed.
    */
  lemma SliceSafe(s: string, a: nat, b: nat)
    requires Safe(s) && a <= b <= |s|
    requires b == |s| || (Delimiter(s[b]) && s[b] != '<') || (a < b && s[b - 1] == '\n')
    ensures Safe(s[a..b])
  {
    var t := s[a..b];
    forall k | 0 <= k < |t| && t[k] == '<'
      ensures TagAt(t, k)
    {
      SliceTagAt(s, a, b, k, t);
    }
  }

  /** The case of `SliceSafe` for one `<` of the slice. */
  lemma SliceTagAt(s: string, a: nat, b: nat, k: nat, t: string)
    requires Safe(s) && a <= b <= |s| && t == s[a..b] && k < |t| && t[k] == '<'
    requires b == |s| || (Delimiter(s[b]) && s[b] != '<') || (a < b && s[b - 1] == '\n')
    ensures TagAt(t, k)
  {
    assert s[a + k] == '<';
    var tag := TagHere(s, a + k);
    TagNotCut(s, a, b, a + k, tag);
    SliceOfSlice(s, a, b, k, k + |tag|);
    assert StartsAt(t, k, tag);
  }

  /** A tag that starts inside such a slice ends inside it. */
  lemma TagNotCut(s: string, a: nat, b: nat, p: nat, tag: string)
    requires WellFormedTag(tag) && StartsAt(s, p, tag) && a <= p < b <= |s|
    requires b == |s| || (Delimiter(s[b]) && s[b] != '<') || (a < b && s[b - 1] == '\n')
    ensures p + |tag| <= b
  {
  }

  /** The literal pieces the rules write are safe on their own. */
  lemma LiteralsSafe()
    ensures Safe("<h1>") && Safe("</h1>") && Safe("<h2>") && Safe("</h2>")
    ensures Safe("<h3>") && Safe("</h3>") && Safe("<li>") && Safe("</li>")
    ensures Safe("<strong>") && Safe("</strong>") && Safe("<em>") && Safe("</em>")
    ensures Safe("<p>") && Safe("</p>") && Safe("<a href=\"") && Safe("</a>")
    ensures Safe("\n<ul>\n") && Safe("</ul>\n") && Safe("\">") && Safe("") && Safe("\n")
  {
    SafeTag(0); SafeTag(1); SafeTag(2); SafeTag(3); SafeTag(4); SafeTag(5);
    SafeTag(6); SafeTag(7); SafeTag(8); SafeTag(9); SafeTag(10); SafeTag(11);
    SafeTag(12); SafeTag(13); SafeTag(14); SafeTag(15); SafeTag(16); SafeTag(17);
    SafeConcat3("\n", MarkupTags[6], "\n");
    assert "\n" + MarkupTags[6] + "\n" == "\n<ul>\n";
    SafeConcat(MarkupTags[7], "\n");
    assert MarkupTags[7] + "\n" == "</ul>\n";
  }

  lemma SetextHitSafe(r: Rule, s: string, i: nat)
    requires r.SetextH1? || r.SetextH2?
    requires i < |s| && Safe(s) && MatchAt(r, s, i).Some?
    ensures Safe(MatchAt(r, s, i).value.out)
  {
    LiteralsSafe();
    var e := LineEnd(s, i);
    SliceSafe(s, i, e);
    if r.SetextH1? {
      SafeConcat3("<h1>", s[i..e], "</h1>");
    } else {
      SafeConcat3("<h2>", s[i..e], "</h2>");
    }
  }

  lemma LineHitSafe(r: Rule, s: string, i: nat)
    requires IsLineRule(r)
    requires i < |s| && Safe(s) && MatchAt(r, s, i).Some?
    ensures Safe(MatchAt(r, s, i).value.out)
  {
    var e := LineEnd(s, i);
    assert MatchAt(r, s, i) == LineAt(r, s, i);
    LineBodySafe(r, s, i, e);
    LineOutSafe(r, s[i..e]);
  }

  /** The matched line is safe, and so is what follows its marker. */
  lemma LineBodySafe(r: Rule, s: string, i: nat, e: nat)
    requires IsLineRule(r) && i < |s| && Safe(s) && e == LineEnd(s, i)
    requires LineMatches(r, s[i..e])
    ensures Safe(s[i..e]) && (!r.Paragraph? ==> Safe(s[i..e][|Marker(r)|..]))
  {
    var line := s[i..e];
    LineSliceSafe(s, i, e, i, line);
    if !r.Paragraph? {
      var m := |Marker(r)|;
      SliceOfLine(s, i, e, m, line);
      LineSliceSafe(s, i, e, i + m, line[m..]);
    }
  }

  /** A slice that runs to the end of a line is safe. */
  lemma LineSliceSafe(s: string, i: nat, e: nat, a: nat, t: string)
    requires i < |s| && Safe(s) && e == LineEnd(s, i) && i <= a <= e && t == s[a..e]
    ensures Safe(t)
  {
    SliceSafe(s, a, e);
  }

  lemma SliceOfLine(s: string, i: nat, e: nat, m: nat, line: string)
    requires i + m <= e <= |s| && line == s[i..e]
    ensures line[m..] == s[i + m..e]
  {
  }

  /** The rewrite of a safe line is safe. */
  lemma LineOutSafe(r: Rule, line: string)
    requires IsLineRule(r) && LineMatches(r, line) && Safe(line)
    requires !r.Paragraph? ==> Safe(line[|Marker(r)|..])
    ensures Safe(LineOut(r, line))
  {
    LiteralsSafe();
    if r.Paragraph? {
      SafeConcat3("<p>", line, "</p>");
    } else {
      assert Safe(Open(r)) && Safe(Close(r));
      SafeConcat3(Open(r), line[|Marker(r)|..], Close(r));
    }
  }

  lemma WrapHitSafe(s: string, i: nat)
    requires i < |s| && Safe(s) && MatchAt(ListWrap, s, i).Some?
    ensures Safe(MatchAt(ListWrap, s, i).value.out)
  {
    var j := WrapHitEnd(s, i);
    WrapPieceSafe(s, i, j, MatchAt(ListWrap, s, i).value.out);
  }

  /** Where the list wrap's match ends: just after the last `</li>` and its line feed. */
  lemma WrapHitEnd(s: string, i: nat) returns (j: nat)
    requires i < |s| && MatchAt(ListWrap, s, i).Some?
    ensures i <= j && j + 6 <= |s| && StartsAt(s, j, "</li>\n")
    ensures MatchAt(ListWrap, s, i).value.out == "\n<ul>\n" + s[i..j + 6] + "</ul>\n"
  {
    j := LastBelow(s, i + 5, |s|, "</li>\n").value;
  }

  lemma WrapPieceSafe(s: string, i: nat, j: nat, out: string)
    requires Safe(s) && i <= j && j + 6 <= |s| && StartsAt(s, j, "</li>\n")
    requires out == "\n<ul>\n" + s[i..j + 6] + "</ul>\n"
    ensures Safe(out)
  {
    LiteralsSafe();
    assert s[j + 5] == "</li>\n"[5] by { assert s[j..j + 6] == "</li>\n"; }
    SliceSafe(s, i, j + 6);
    SafeConcat3("\n<ul>\n", s[i..j + 6], "</ul>\n");
  }

  lemma EmphasisHitSafe(r: Rule, s: string, i: nat)
    requires r.Bold? || r.Italic?
    requires i < |s| && Safe(s) && MatchAt(r, s, i).Some?
    ensures Safe(MatchAt(r, s, i).value.out)
  {
    LiteralsSafe();
    if r.Bold? {
      var j := FindFrom(s, i + 3, "**").value;
      StartsAtHead(s, j, "**");
      SliceSafe(s, i + 2, j);
      SafeConcat3("<strong>", s[i + 2..j], "</strong>");
    } else {
      var j := FindFrom(s, i + 2, "*").value;
      StartsAtHead(s, j, "*");
      SliceSafe(s, i + 1, j);
      SafeConcat3("<em>", s[i + 1..j], "</em>");
    }
  }

  lemma LinkHitSafe(s: string, i: nat)
    requires i < |s| && Safe(s) && LinkAt(s, i).Some?
    ensures Safe(Anchor(LinkAt(s, i).value))
  {
    LinkPartsSafe(s, i);
    AnchorSafe(LinkAt(s, i).value);
  }

  /** The text and the target of a link are slices that end at `]` and `)`. */
  lemma LinkPartsSafe(s: string, i: nat)
    requires i < |s| && Safe(s) && LinkAt(s, i).Some?
    ensures Safe(LinkAt(s, i).value.text) && Safe(LinkAt(s, i).value.href)
  {
    LinkTextSafe(s, i);
    LinkHrefSafe(s, i);
  }

  lemma LinkTextSafe(s: string, i: nat)
    requires i < |s| && Safe(s) && LinkAt(s, i).Some?
    ensures Safe(LinkAt(s, i).value.text)
  {
    var a, b := LinkParts(s, i);
    CaptureSafe(s, i + 1, a, LinkAt(s, i).value.text);
  }

  lemma LinkHrefSafe(s: string, i: nat)
    requires i < |s| && Safe(s) && LinkAt(s, i).Some?
    ensures Safe(LinkAt(s, i).value.href)
  {
    var a, b := LinkParts(s, i);
    CaptureSafe(s, a + 2, b, LinkAt(s, i).value.href);
  }

  /** A capture that ends before a delimiter other than `<` is safe. */
  lemma CaptureSafe(s: string, a: nat, b: nat, t: string)
    requires Safe(s) && a <= b < |s| && Delimiter(s[b]) && s[b] != '<' && t == s[a..b]
    ensures Safe(t)
  {
    SliceSafe(s, a, b);
  }

  lemma AnchorSafe(l: LinkSyntax)
    requires Safe(l.text) && Safe(l.href)
    ensures Safe(Anchor(l))
  {
    LiteralsSafe();
    SafeConcat3("<a href=\"", l.href, "\">");
    SafeConcat3("<a href=\"" + l.href + "\">", l.text, "</a>");
  }

  /** Each replacement is safe: literal tags around slices that do not cut a tag. */
  lemma HitSafe(r: Rule, s: string, i: nat)
    requires i < |s| && Safe(s) && MatchAt(r, s, i).Some?
    ensures Safe(MatchAt(r, s, i).value.out)
  {
    if r.SetextH1? || r.SetextH2? {
      SetextHitSafe(r, s, i);
    } else if IsLineRule(r) {
      LineHitSafe(r, s, i);
    } else if r.ListWrap? {
      WrapHitSafe(s, i);
    } else if r.Bold? || r.Italic? {
      EmphasisHitSafe(r, s, i);
    } else if r.Link? {
      LinkHitSafe(s, i);
    } else {
      LiteralsSafe();
    }
  }

  /** No match starts inside a well-formed tag, after its `<`. */
  lemma TagInsideQuiet(r: Rule, s: string, i: nat, tag: string)
    requires WellFormedTag(tag) && StartsAt(s, i, tag)
    requires i < |s| && MatchAt(r, s, i).None?
    ensures Quiet(r, s, i, i + |tag|)
  {
    forall p | i < p < i + |tag|
      ensures MatchAt(r, s, p).None?
    {
      assert s[p] == tag[p - i] && s[p - 1] == tag[p - 1 - i];
      QuietPosition(r, s, p);
    }
  }

  /** Scanning with any rule keeps a safe text safe. */
  lemma {:induction false} ReplaceSafe(r: Rule, s: string, i: nat)
    requires i <= |s| && Safe(s)
    ensures Safe(ReplaceFrom(r, s, i))
    decreases |s| - i
  {
    if i < |s| {
      if MatchAt(r, s, i).Some? {
        ReplaceSafe(r, s, MatchAt(r, s, i).value.end);
        HitStepSafe(r, s, i);
      } else if s[i] == '<' {
        // the whole tag is copied: no match starts inside it
        var tag := TagHere(s, i);
        ReplaceSafe(r, s, i + |tag|);
        TagStepSafe(r, s, i, tag);
      } else {
        ReplaceSafe(r, s, i + 1);
        CharStepSafe(r, s, i);
      }
    }
  }

  /** The tag that a `<` of a safe text begins. */
  lemma TagHere(s: string, i: nat) returns (tag: string)
    requires Safe(s) && i < |s| && s[i] == '<'
    ensures WellFormedTag(tag) && Safe(tag) && StartsAt(s, i, tag)
  {
    var j :| 0 <= j < |MarkupTags| && StartsAt(s, i, MarkupTags[j]);
    tag := MarkupTags[j];
    TagsWellFormed(j);
    SafeTag(j);
  }

  lemma HitStepSafe(r: Rule, s: string, i: nat)
    requires i < |s| && Safe(s) && MatchAt(r, s, i).Some?
    requires Safe(ReplaceFrom(r, s, MatchAt(r, s, i).value.end))
    ensures Safe(ReplaceFrom(r, s, i))
  {
    HitSafe(r, s, i);
    HitStep(r, s, i);
    SafeConcat(MatchAt(r, s, i).value.out, ReplaceFrom(r, s, MatchAt(r, s, i).value.end));
  }

  lemma TagStepSafe(r: Rule, s: string, i: nat, tag: string)
    requires WellFormedTag(tag) && Safe(tag) && StartsAt(s, i, tag)
    requires i < |s| && MatchAt(r, s, i).None?
    requires Safe(ReplaceFrom(r, s, i + |tag|))
    ensures Safe(ReplaceFrom(r, s, i))
  {
    TagInsideQuiet(r, s, i, tag);
    CopyRunSafe(r, s, i, i + |tag|, tag);
  }

  /** A safe piece copied unchanged in front of a safe rest gives a safe text. */
  lemma CopyRunSafe(r: Rule, s: string, i: nat, j: nat, piece: string)
    requires i <= j <= |s| && piece == s[i..j] && Quiet(r, s, i, j)
    requires Safe(piece) && Safe(ReplaceFrom(r, s, j))
    ensures Safe(ReplaceFrom(r, s, i))
  {
    CopyRunAs(r, s, i, j, piece);
    SafeConcat(piece, ReplaceFrom(r, s, j));
  }

  lemma CharStepSafe(r: Rule, s: string, i: nat)
    requires i < |s| && s[i] != '<' && MatchAt(r, s, i).None?
    requires Safe(ReplaceFrom(r, s, i + 1))
    ensures Safe(ReplaceFrom(r, s, i))
  {
    CopyStep(r, s, i);
    SafeConcat([s[i]], ReplaceFrom(r, s, i + 1));
  }

  /** Any sequence of rules keeps a safe text safe. */
  lemma {:induction false} ApplyAllSafe(rules: seq<Rule>, t: string)
    requires Safe(t)
    ensures Safe(ApplyAll(rules, t))
    decreases |rules|
  {
    if rules != [] {
      ReplaceSafe(rules[0], t, 0);
      ApplyAllSafe(rules[1..], ReplaceAll(rules[0], t));
    }
  }
}
