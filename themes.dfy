/**
  * The colour themes (src/ThemeManager.php): a fixed table of fifteen named gradients and a
  * manager that holds the name of the current one.
  */
module Themes {
  import opened Wrappers
  import opened HtmlEscape

  /** The two ends of a theme's gradient, as CSS colours. */
  datatype Colors = Colors(start: string, end: string)

  /** The theme table, in declaration order (src/ThemeManager.php:14-30). */
  const ThemeTable: seq<(string, Colors)> := [
    ("blue", Colors("#4a90e2", "#357abd")),
    ("green", Colors("#2ecc71", "#27ae60")),
    ("purple", Colors("#9b59b6", "#8e44ad")),
    ("orange", Colors("#e67e22", "#d35400")),
    ("red", Colors("#e74c3c", "#c0392b")),
    ("teal", Colors("#1abc9c", "#16a085")),
    ("pink", Colors("#ff6f61", "#ff3b30")),
    ("yellow", Colors("#f1c40f", "#f39c12")),
    ("gray", Colors("#95a5a6", "#7f8c8d")),
    ("indigo", Colors("#3f51b5", "#303f9f")),
    ("cyan", Colors("#00bcd4", "#0097a7")),
    ("amber", Colors("#ffc107", "#ffa000")),
    ("lime", Colors("#cddc39", "#afb42b")),
    ("brown", Colors("#795548", "#5d4037")),
    ("deepPurple", Colors("#673ab7", "#512da8"))]

  /** The theme a new manager starts with, and the one it falls back to. */
  const DefaultTheme: string := "blue"

  predicate IsTheme(name: string) {
    exists k :: 0 <= k < |ThemeTable| && ThemeTable[k].0 == name
  }

  /** `isset(THEMES[name])` and `THEMES[name]`: the colours of the entry with that key. */
  function Lookup(entries: seq<(string, Colors)>, name: string): (c: Option<Colors>)
    ensures c.None? <==> forall k :: 0 <= k < |entries| ==> entries[k].0 != name
    ensures c.Some? ==> exists k :: 0 <= k < |entries| && entries[k] == (name, c.value)
  {
    if entries == [] then None
    else if entries[0].0 == name then Some(entries[0].1)
    else Lookup(entries[1..], name)
  }

  /** The keys are distinct, so each key names exactly one entry. */
  lemma ThemeKeysDistinct()
    ensures forall i, j :: 0 <= i < j < |ThemeTable| ==> ThemeTable[i].0 != ThemeTable[j].0
  {
  }

  /** A key's colours are those of its own entry. */
  lemma LookupEntry(k: nat)
    requires k < |ThemeTable|
    ensures Lookup(ThemeTable, ThemeTable[k].0) == Some(ThemeTable[k].1)
  {
    ThemeKeysDistinct();
  }

  /** The colours of each of the fifteen themes, as a lookup by name finds them. */
  lemma ThemeColorsTable()
    ensures Lookup(ThemeTable, "blue") == Some(Colors("#4a90e2", "#357abd"))
    ensures Lookup(ThemeTable, "green") == Some(Colors("#2ecc71", "#27ae60"))
    ensures Lookup(ThemeTable, "purple") == Some(Colors("#9b59b6", "#8e44ad"))
    ensures Lookup(ThemeTable, "orange") == Some(Colors("#e67e22", "#d35400"))
    ensures Lookup(ThemeTable, "red") == Some(Colors("#e74c3c", "#c0392b"))
    ensures Lookup(ThemeTable, "teal") == Some(Colors("#1abc9c", "#16a085"))
    ensures Lookup(ThemeTable, "pink") == Some(Colors("#ff6f61", "#ff3b30"))
    ensures Lookup(ThemeTable, "yellow") == Some(Colors("#f1c40f", "#f39c12"))
    ensures Lookup(ThemeTable, "gray") == Some(Colors("#95a5a6", "#7f8c8d"))
    ensures Lookup(ThemeTable, "indigo") == Some(Colors("#3f51b5", "#303f9f"))
    ensures Lookup(ThemeTable, "cyan") == Some(Colors("#00bcd4", "#0097a7"))
    ensures Lookup(ThemeTable, "amber") == Some(Colors("#ffc107", "#ffa000"))
    ensures Lookup(ThemeTable, "lime") == Some(Colors("#cddc39", "#afb42b"))
    ensures Lookup(ThemeTable, "brown") == Some(Colors("#795548", "#5d4037"))
    ensures Lookup(ThemeTable, "deepPurple") == Some(Colors("#673ab7", "#512da8"))
  {
    LookupEntry(0); LookupEntry(1); LookupEntry(2); LookupEntry(3); LookupEntry(4);
    LookupEntry(5); LookupEntry(6); LookupEntry(7); LookupEntry(8); LookupEntry(9);
    LookupEntry(10); LookupEntry(11); LookupEntry(12); LookupEntry(13); LookupEntry(14);
  }

  /** The default theme is a theme, and its colours are `#4a90e2` to `#357abd`. */
  lemma DefaultColors()
    ensures IsTheme(DefaultTheme)
    ensures Lookup(ThemeTable, DefaultTheme) == Some(Colors("#4a90e2", "#357abd"))
  {
    assert ThemeTable[0].0 == DefaultTheme;
  }

  /** A theme name is made of letters only. */
  lemma ThemeNamesAreLetters(k: nat, m: nat)
    requires k < |ThemeTable| && m < |ThemeTable[k].0|
    ensures ('a' <= ThemeTable[k].0[m] <= 'z') || ('A' <= ThemeTable[k].0[m] <= 'Z')
  {
  }

  /** A theme name has no metacharacter, so the escape keeps it. */
  lemma ThemeNameEscapes(name: string, d: Doctype)
    requires IsTheme(name)
    ensures NoSpecial(name) && Escape(name, d) == name
  {
    var k :| 0 <= k < |ThemeTable| && ThemeTable[k].0 == name;
    forall m | 0 <= m < |name|
      ensures !IsSpecial(name[m])
    {
      ThemeNamesAreLetters(k, m);
    }
    EscapeKeepsPlainText(name, d);
  }

  /** A name with an HTML metacharacter in it is not a theme name. */
  lemma SpecialNotTheme(name: string)
    requires !NoSpecial(name)
    ensures Lookup(ThemeTable, name).None?
  {
    var i :| 0 <= i < |name| && IsSpecial(name[i]);
    forall k | 0 <= k < |ThemeTable|
      ensures ThemeTable[k].0 != name
    {
      if i < |ThemeTable[k].0| {
        ThemeNamesAreLetters(k, i);
      }
    }
  }

  /**
    * The escape `setTheme` applies before the lookup changes nothing about which names are
    * accepted: a name is looked up as it is, or, with a metacharacter in it, is unknown both
    * before and after the escape.
    */
  lemma EscapedLookup(name: string)
    ensures Lookup(ThemeTable, Escape(name, Html401)) == Lookup(ThemeTable, name)
    ensures IsTheme(name) ==> Escape(name, Html401) == name
  {
    if IsTheme(name) {
      ThemeNameEscapes(name, Html401);
    }
    if NoSpecial(name) {
      EscapeKeepsPlainText(name, Html401);
    } else {
      SpecialNotTheme(name);
      EscapeMarksSpecials(name, Html401);
      var e := Escape(name, Html401);
      var i :| 0 <= i < |e| && e[i] == '&';
      assert IsSpecial(e[i]);
      SpecialNotTheme(e);
    }
  }

  /** What `setTheme` leads to: the theme is applied, or the request stops with this message. */
  datatype SetOutcome = Applied | Halted(message: string)

  /** The theme a manager holds after `setTheme(name)`, whatever it held before. */
  function ThemeAfter(name: string): (t: string)
    ensures IsTheme(t)
    ensures t == name <==> IsTheme(name)
    ensures !IsTheme(name) ==> t == DefaultTheme
  {
    DefaultColors();
    var escaped := Escape(name, Html401);
    EscapedLookup(name);
    if Lookup(ThemeTable, escaped).Some? then escaped else DefaultTheme
  }

  class ThemeManager {
    var currentTheme: string

    /** The manager always holds the name of a theme. */
    predicate Valid()
      reads this
    {
      IsTheme(currentTheme)
    }

    constructor()
      ensures currentTheme == DefaultTheme && Valid()
    {
      currentTheme := DefaultTheme;
      DefaultColors();
    }

    /**
      * `setTheme`: the name is escaped and looked up; a known name becomes current, an unknown
      * one stops the request with an error page (the error message shows the escaped name)
      * and the manager is set back to the default.
      */
    method SetTheme(themeName: string) returns (o: SetOutcome)
      modifies this
      ensures currentTheme == ThemeAfter(themeName) && Valid()
      ensures o == Applied <==> IsTheme(themeName)
      ensures o != Applied ==> o == Halted("Invalid theme: " + Escape(themeName, Html401))
    {
      var escaped := Escape(themeName, Html401);
      EscapedLookup(themeName);
      if Lookup(ThemeTable, escaped).None? {
        o := Halted("Invalid theme: " + escaped);
        currentTheme := DefaultTheme;
        return;
      }
      currentTheme := escaped;
      o := Applied;
    }

    /** `getCurrentThemeColors`: the current theme's colours, or the default's. */
    function CurrentThemeColors(): (c: Colors)
      reads this
      ensures Valid() ==> Lookup(ThemeTable, currentTheme) == Some(c)
      ensures !Valid() ==> c == Colors("#4a90e2", "#357abd")
    {
      DefaultColors();
      match Lookup(ThemeTable, currentTheme)
      case Some(c) => c
      case None => Lookup(ThemeTable, DefaultTheme).value
    }

    /** `getAvailableThemes`: the keys of the table in declaration order. */
    function AvailableThemes(): (names: seq<string>)
      ensures |names| == |ThemeTable|
      ensures forall k :: 0 <= k < |names| ==> names[k] == ThemeTable[k].0
    {
      seq(|ThemeTable|, k requires 0 <= k < |ThemeTable| => ThemeTable[k].0)
    }
  }

  /** The fifteen theme names, in order. */
  lemma AvailableThemeNames(m: ThemeManager)
    ensures m.AvailableThemes() == ["blue", "green", "purple", "orange", "red", "teal", "pink",
      "yellow", "gray", "indigo", "cyan", "amber", "lime", "brown", "deepPurple"]
  {
    var names := m.AvailableThemes();
    var expected := ["blue", "green", "purple", "orange", "red", "teal", "pink",
      "yellow", "gray", "indigo", "cyan", "amber", "lime", "brown", "deepPurple"];
    forall k | 0 <= k < |expected|
      ensures names[k] == expected[k]
    {
      assert names[k] == ThemeTable[k].0;
    }
    assert |names| == |expected|;
  }

  /** No theme name is offered twice. */
  lemma AvailableThemesDistinct(m: ThemeManager)
    ensures forall i, j :: 0 <= i < j < |m.AvailableThemes()| ==>
      m.AvailableThemes()[i] != m.AvailableThemes()[j]
  {
    ThemeKeysDistinct();
  }

  /** A theme that was set is the one whose colours are reported. */
  lemma SetThenColors(m: ThemeManager, k: nat)
    requires k < |ThemeTable| && m.currentTheme == ThemeAfter(ThemeTable[k].0)
    ensures m.CurrentThemeColors() == ThemeTable[k].1
  {
    assert IsTheme(ThemeTable[k].0);
    LookupEntry(k);
  }

  /** Setting the theme a manager already holds keeps it. */
  lemma ReapplyKeeps(t: string)
    requires IsTheme(t)
    ensures ThemeAfter(t) == t
  {
  }
}
