/** Python's `str.strip()` with no argument: remove leading and trailing
    characters for which `str.isspace()` holds. */
module Text {

  /** The characters Python's `str.isspace()` accepts: TAB..CR, FS..US,
      SPACE, NEL, NO-BREAK SPACE, OGHAM SPACE MARK, EN QUAD..HAIR SPACE,
      LINE and PARAGRAPH SEPARATOR, NARROW NO-BREAK SPACE, MEDIUM
      MATHEMATICAL SPACE and IDEOGRAPHIC SPACE. */
  predicate IsSpace(c: char) {
    ('\U{9}' <= c <= '\U{D}') || ('\U{1C}' <= c <= ' ') || c == '\U{85}' || c == '\U{A0}'
    || c == '\U{1680}' || ('\U{2000}' <= c <= '\U{200A}') || c == '\U{2028}' || c == '\U{2029}'
    || c == '\U{202F}' || c == '\U{205F}' || c == '\U{3000}'
  }

  /** Every character of `s` from index `lo` up to `hi` is whitespace. */
  predicate SpaceBetween(s: string, lo: int, hi: int)
    requires 0 <= lo && hi <= |s|
  {
    forall k :: lo <= k < hi ==> IsSpace(s[k])
  }

  predicate AllSpace(s: string) {
    SpaceBetween(s, 0, |s|)
  }

  /** Neither the first nor the last character is whitespace. */
  predicate IsStripped(s: string) {
    s == [] || (!IsSpace(s[0]) && !IsSpace(s[|s| - 1]))
  }

  /** Where `s.lstrip()` starts, searching from `lo`. */
  function LeadingCut(s: string, lo: nat): (i: nat)
    requires lo <= |s|
    ensures lo <= i <= |s| && SpaceBetween(s, lo, i)
    ensures i < |s| ==> !IsSpace(s[i])
    decreases |s| - lo
  {
    if lo < |s| && IsSpace(s[lo]) then LeadingCut(s, lo + 1) else lo
  }

  /** Where `s.rstrip()` ends, searching down from `hi` but not below `lo`. */
  function TrailingCut(s: string, lo: nat, hi: nat): (j: nat)
    requires lo <= hi <= |s|
    ensures lo <= j <= hi && SpaceBetween(s, j, hi)
    ensures j > lo ==> !IsSpace(s[j - 1])
    decreases hi
  {
    if hi > lo && IsSpace(s[hi - 1]) then TrailingCut(s, lo, hi - 1) else hi
  }

  /** `s.strip()`. The result is stripped and it is empty exactly when `s`
      is all whitespace. */
  function Strip(s: string): (r: string)
    ensures IsStripped(r)
    ensures r == [] <==> AllSpace(s)
  {
    var i := LeadingCut(s, 0);
    var j := TrailingCut(s, i, |s|);
    s[i..j]
  }

  /** `Strip` removes only whitespace, and only from the two ends. */
  lemma StripInfix(s: string)
    ensures exists i, j | 0 <= i <= j <= |s| ::
      Strip(s) == s[i..j] && SpaceBetween(s, 0, i) && SpaceBetween(s, j, |s|)
  {
    var i := LeadingCut(s, 0);
    var j := TrailingCut(s, i, |s|);
    assert Strip(s) == s[i..j];
  }

  /** Stripping text that has no surrounding whitespace changes nothing. */
  lemma StripKeepsStripped(s: string)
    requires IsStripped(s)
    ensures Strip(s) == s
  {
    if s != [] {
      assert LeadingCut(s, 0) == 0;
      assert TrailingCut(s, 0, |s|) == |s|;
      assert s[0..|s|] == s;
    }
  }
}
