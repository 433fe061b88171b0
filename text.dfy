/**
  * Positions in a text: the scanning primitives that the regular expressions of the
  * Markdown transformer are built from. A text is the PHP string, one char per byte.
  */
module Text {
  import opened Wrappers

  /** Pattern `p` occurs in `s` at position `i`. */
  predicate StartsAt(s: string, i: nat, p: string) {
    i + |p| <= |s| && s[i..i + |p|] == p
  }

  /** The multiline anchor `^`: position `i` begins a line. */
  predicate AtLineStart(s: string, i: nat)
    requires i <= |s|
  {
    i == 0 || s[i - 1] == '\n'
  }

  /** The PCRE class `\s` (space, tab, line feed, vertical tab, form feed, carriage return). */
  predicate IsSpace(c: char) {
    c == ' ' || c == '\t' || c == '\n' || c == '\U{0B}' || c == '\U{0C}' || c == '\r'
  }

  /** The end of the line that contains position `i`: the next `\n`, or the end of the text. */
  function LineEnd(s: string, i: nat): (e: nat)
    requires i <= |s|
    ensures i <= e <= |s|
    ensures e == |s| || s[e] == '\n'
    ensures forall k :: i <= k < e ==> s[k] != '\n'
    decreases |s| - i
  {
    if i == |s| || s[i] == '\n' then i else LineEnd(s, i + 1)
  }

  /** The end of the run of `c` that starts at `i` (greedy `c+`). */
  function RunEnd(s: string, i: nat, c: char): (e: nat)
    requires i <= |s|
    ensures i <= e <= |s|
    ensures e == |s| || s[e] != c
    ensures forall k :: i <= k < e ==> s[k] == c
    decreases |s| - i
  {
    if i == |s| || s[i] != c then i else RunEnd(s, i + 1, c)
  }

  /** The end of the run of white space that starts at `i` (greedy `\s*`). */
  function SpaceRunEnd(s: string, i: nat): (e: nat)
    requires i <= |s|
    ensures i <= e <= |s|
    ensures e == |s| || !IsSpace(s[e])
    ensures forall k :: i <= k < e ==> IsSpace(s[k])
    decreases |s| - i
  {
    if i == |s| || !IsSpace(s[i]) then i else SpaceRunEnd(s, i + 1)
  }

  /** The first occurrence of `p` at or after `i` (what a lazy quantifier stops at). */
  function FindFrom(s: string, i: nat, p: string): (r: Option<nat>)
    requires i <= |s| && |p| > 0
    ensures r.Some? ==> i <= r.value && StartsAt(s, r.value, p)
    ensures r.Some? ==> forall k :: i <= k < r.value ==> !StartsAt(s, k, p)
    ensures r.None? ==> forall k :: i <= k <= |s| ==> !StartsAt(s, k, p)
    decreases |s| - i
  {
    if StartsAt(s, i, p) then Some(i)
    else if i == |s| then None
    else FindFrom(s, i + 1, p)
  }

  /** The last occurrence of `p` that starts in `[lo, hi)` (what a greedy quantifier backs off to). */
  function LastBelow(s: string, lo: nat, hi: nat, p: string): (r: Option<nat>)
    requires lo <= hi <= |s|
    ensures r.Some? ==> lo <= r.value < hi && StartsAt(s, r.value, p)
    ensures r.Some? ==> forall k :: r.value < k < hi ==> !StartsAt(s, k, p)
    ensures r.None? ==> forall k :: lo <= k < hi ==> !StartsAt(s, k, p)
    decreases hi - lo
  {
    if hi == lo then None
    else if StartsAt(s, hi - 1, p) then Some(hi - 1)
    else LastBelow(s, lo, hi - 1, p)
  }

  /** The character at an occurrence is the pattern's first character. */
  lemma StartsAtHead(s: string, i: nat, p: string)
    requires StartsAt(s, i, p) && |p| > 0
    ensures i < |s| && s[i] == p[0]
  {
    assert s[i..i + |p|][0] == s[i];
  }

  /** A character absent from a text is absent from each of its slices. */
  lemma SliceAbsent(s: string, a: nat, b: nat, c: char)
    requires a <= b <= |s| && c !in s
    ensures c !in s[a..b]
  {
  }

  lemma SliceOfSlice(s: string, a: nat, b: nat, k: nat, l: nat)
    requires a <= b <= |s| && k <= l <= b - a
    ensures s[a..b][k..l] == s[a + k..a + l]
  {
    assert forall m :: 0 <= m < l - k ==> s[a..b][k..l][m] == s[a + k..a + l][m];
  }

  /** A pattern does not occur where its first character is missing. */
  lemma NotStartsAt(s: string, k: nat, p: string)
    requires k < |s| && |p| > 0 && s[k] != p[0]
    ensures !StartsAt(s, k, p)
  {
    if StartsAt(s, k, p) {
      StartsAtHead(s, k, p);
    }
  }

  /** A pattern does not occur where one of its characters is missing. */
  lemma Mismatch(s: string, i: nat, p: string, m: nat)
    requires m < |p| && i + m < |s| && s[i + m] != p[m]
    ensures !StartsAt(s, i, p)
  {
  }

  /** The first occurrence from `i` is `j` when `p` occurs at `j` and nowhere in between. */
  lemma FindFromIs(s: string, i: nat, p: string, j: nat)
    requires i <= j <= |s| && |p| > 0 && StartsAt(s, j, p)
    requires forall k :: i <= k < j ==> !StartsAt(s, k, p)
    ensures FindFrom(s, i, p) == Some(j)
  {
  }

  /** `p` occurs in `a + p + b` right after `a`, and the slice there is `p`. */
  lemma StartsAtJoin(a: string, p: string, b: string)
    ensures StartsAt(a + p + b, |a|, p) && (a + p + b)[|a|..|a| + |p|] == p
  {
    assert (a + p + b)[|a|..|a| + |p|] == p;
  }

  /** In `a + x + b`, when `x` has no `c` and `b` starts with `c`, the first `c` after `a` starts `b`. */
  lemma FindAfter(a: string, x: string, b: string, c: char)
    requires c !in x && |b| > 0 && b[0] == c
    ensures FindFrom(a + x + b, |a|, [c]) == Some(|a| + |x|)
  {
    var s := a + x + b;
    forall k | |a| <= k < |a| + |x|
      ensures !StartsAt(s, k, [c])
    {
      assert s[k] == x[k - |a|];
      NotStartsAt(s, k, [c]);
    }
    assert s[|a| + |x|..|a| + |x| + 1] == [c];
    FindFromIs(s, |a|, [c], |a| + |x|);
  }
}
