/**
  * PHP's `htmlspecialchars` with `ENT_QUOTES`, UTF-8 and double encoding on (the default):
  * a per-character map of the five HTML metacharacters to named or numeric entities.
  */
module HtmlEscape {
  import opened Text

  /** The document-type flag: it only decides how a single quote is written. */
  datatype Doctype = Html401 | Html5

  predicate IsSpecial(c: char) {
    c == '&' || c == '<' || c == '>' || c == '"' || c == '\''
  }

  predicate NoSpecial(s: string) {
    forall k :: 0 <= k < |s| ==> !IsSpecial(s[k])
  }

  /** Characters that occur in the entities written by the escape. */
  predicate EntityChar(c: char) {
    c == '&' || c == ';' || c == '#' || ('0' <= c <= '9') || ('a' <= c <= 'z')
  }

  /** The entity for a single quote: `&#039;` by default, `&apos;` under `ENT_HTML5`. */
  function AposEntity(d: Doctype): (e: string)
    ensures |e| == 6 && e[0] == '&' && e[5] == ';'
  {
    if d == Html5 then "&apos;" else "&#039;"
  }

  function EscapeChar(c: char, d: Doctype): (r: string)
    ensures |r| > 0
    ensures !IsSpecial(c) ==> r == [c]
    ensures IsSpecial(c) ==> r[0] == '&' && |r| > 1 && forall k :: 0 <= k < |r| ==> EntityChar(r[k])
  {
    if c == '&' then "&amp;"
    else if c == '<' then "&lt;"
    else if c == '>' then "&gt;"
    else if c == '"' then "&quot;"
    else if c == '\'' then AposEntity(d)
    else [c]
  }

  /** `htmlspecialchars(s, ENT_QUOTES | doctype, 'UTF-8')` on valid text. */
  function Escape(s: string, d: Doctype): (r: string)
    ensures '<' !in r && '>' !in r && '"' !in r && '\'' !in r
    ensures |r| >= |s|
    decreases |s|
  {
    if s == [] then [] else EscapeChar(s[0], d) + Escape(s[1..], d)
  }

  /** Decodes exactly the five entities the escape writes; the partner of `Escape`. */
  function Unescape(s: string, d: Doctype): string
    decreases |s|
  {
    if s == [] then []
    else if StartsAt(s, 0, "&amp;") then "&" + Unescape(s[5..], d)
    else if StartsAt(s, 0, "&lt;") then "<" + Unescape(s[4..], d)
    else if StartsAt(s, 0, "&gt;") then ">" + Unescape(s[4..], d)
    else if StartsAt(s, 0, "&quot;") then "\"" + Unescape(s[6..], d)
    else if StartsAt(s, 0, AposEntity(d)) then "'" + Unescape(s[6..], d)
    else [s[0]] + Unescape(s[1..], d)
  }

  lemma UnescapeStep(c: char, rest: string, d: Doctype)
    ensures Unescape(EscapeChar(c, d) + rest, d) == [c] + Unescape(rest, d)
  {
    var e := EscapeChar(c, d);
    if IsSpecial(c) {
      SpecialEntity(c, d);
      UnescapeEntity(e, [c], rest, d);
    } else {
      UnescapePlain(c, rest, d);
    }
  }

  /** A character that is not `&` decodes to itself. */
  lemma UnescapePlain(c: char, rest: string, d: Doctype)
    requires !IsSpecial(c)
    ensures Unescape([c] + rest, d) == [c] + Unescape(rest, d)
  {
    var s := [c] + rest;
    assert s[0] == c && s[1..] == rest;
    NotStartsAt(s, 0, "&amp;");
    NotStartsAt(s, 0, "&lt;");
    NotStartsAt(s, 0, "&gt;");
    NotStartsAt(s, 0, "&quot;");
    NotStartsAt(s, 0, AposEntity(d));
  }

  lemma SpecialEntity(c: char, d: Doctype)
    requires IsSpecial(c)
    ensures var e := EscapeChar(c, d);
      (e == "&amp;" && [c] == "&") || (e == "&lt;" && [c] == "<") || (e == "&gt;" && [c] == ">") ||
      (e == "&quot;" && [c] == "\"") || (e == AposEntity(d) && [c] == "'")
  {
  }

  /** An entity at the front decodes to its character; the entities differ in their second or third character. */
  lemma UnescapeEntity(e: string, c: string, rest: string, d: Doctype)
    requires (e == "&amp;" && c == "&") || (e == "&lt;" && c == "<") || (e == "&gt;" && c == ">") ||
      (e == "&quot;" && c == "\"") || (e == AposEntity(d) && c == "'")
    ensures Unescape(e + rest, d) == c + Unescape(rest, d)
  {
    var s := e + rest;
    StartsAtJoin("", e, rest);
    assert s[|e|..] == rest && s[1] == e[1] && s[2] == e[2];
    if e != "&amp;" {
      Mismatch(s, 0, "&amp;", if e == AposEntity(d) && d == Html5 then 2 else 1);
    }
    if e != "&amp;" && e != "&lt;" {
      Mismatch(s, 0, "&lt;", 1);
    }
    if e != "&amp;" && e != "&lt;" && e != "&gt;" {
      Mismatch(s, 0, "&gt;", 1);
    }
    if e == AposEntity(d) {
      Mismatch(s, 0, "&quot;", 1);
    }
  }

  /** Escaping loses nothing: decoding the five entities gives the input back. */
  lemma {:induction false} UnescapeEscape(s: string, d: Doctype)
    ensures Unescape(Escape(s, d), d) == s
    decreases |s|
  {
    if s != [] {
      UnescapeStep(s[0], Escape(s[1..], d), d);
      UnescapeEscape(s[1..], d);
    }
  }

  /** Hence two different texts never escape to the same text. */
  lemma EscapeInjective(s: string, t: string, d: Doctype)
    requires Escape(s, d) == Escape(t, d)
    ensures s == t
  {
    UnescapeEscape(s, d);
    UnescapeEscape(t, d);
  }

  /** The escape works character by character, so it distributes over concatenation. */
  lemma {:induction false} EscapeAppend(a: string, b: string, d: Doctype)
    ensures Escape(a + b, d) == Escape(a, d) + Escape(b, d)
    decreases |a|
  {
    if a == [] {
      assert a + b == b;
    } else {
      var ab := a + b;
      assert ab[0] == a[0] && ab[1..] == a[1..] + b;
      EscapeAppend(a[1..], b, d);
    }
  }

  /** Text without metacharacters passes through unchanged. */
  lemma {:induction false} EscapeKeepsPlainText(s: string, d: Doctype)
    requires NoSpecial(s)
    ensures Escape(s, d) == s
    decreases |s|
  {
    if s != [] {
      EscapeKeepsPlainText(s[1..], d);
    }
  }

  /** Text with a metacharacter comes out with an `&` in it. */
  lemma {:induction false} EscapeMarksSpecials(s: string, d: Doctype)
    requires !NoSpecial(s)
    ensures '&' in Escape(s, d)
    decreases |s|
  {
    var head := EscapeChar(s[0], d);
    assert Escape(s, d) == head + Escape(s[1..], d);
    if IsSpecial(s[0]) {
      assert head[0] == '&';
    } else {
      assert !NoSpecial(s[1..]) by {
        var k :| 0 <= k < |s| && IsSpecial(s[k]);
        assert k > 0 && IsSpecial(s[1..][k - 1]);
      }
      EscapeMarksSpecials(s[1..], d);
    }
  }

  /** The first output character: `&` for a metacharacter, the character itself otherwise. */
  lemma EscapeHead(s: string, d: Doctype)
    requires |s| > 0
    ensures Escape(s, d)[0] == if IsSpecial(s[0]) then '&' else s[0]
  {
  }

  /** A character that no entity contains appears in the output only where it was in the input. */
  lemma {:induction false} EscapeAbsent(s: string, d: Doctype, c: char)
    requires c !in s && !EntityChar(c)
    ensures c !in Escape(s, d)
    decreases |s|
  {
    if s != [] {
      assert s[0] != c && c !in s[1..];
      EscapeAbsent(s[1..], d, c);
      assert c !in EscapeChar(s[0], d);
    }
  }

  /** A character followed by plain text: only the character is escaped. */
  lemma EscapeBeforePlain(c: char, t: string, d: Doctype)
    requires NoSpecial(t)
    ensures Escape([c] + t, d) == EscapeChar(c, d) + t
  {
    assert ([c] + t)[1..] == t;
    EscapeKeepsPlainText(t, d);
  }

  /** Double encoding: an `&` that already starts an entity is escaped again, so the escape is not idempotent. */
  lemma EscapeNotIdempotent(d: Doctype)
    ensures Escape("&lt;", d) == "&amp;lt;"
    ensures Escape(Escape("<", d), d) != Escape("<", d)
  {
    assert Escape("&lt;", d) == EscapeChar('&', d) + Escape("lt;", d);
    assert Escape("lt;", d) == "lt;";
  }
}
