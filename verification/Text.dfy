/**
 * The two string services every validation relies on: `isBlank` (is the text
 * made of whitespace only) and `trim` (drop whitespace at both ends). They
 * use different notions of whitespace: `trim` drops every character up to
 * the space, `isBlank` skips what `Character.isWhitespace` accepts.
 */
module Text {
  import opened Common

  /** What `trim` drops: every character up to U+0020, the space, controls included. */
  predicate IsSpace(c: char)
  {
    c <= ' '
  }

  /**
   * `Character.isWhitespace`: TAB, LF, VT, FF, CR, the separators U+001C to
   * U+001F, the space, and the Unicode space, line and paragraph separators
   * other than the no-break spaces U+00A0, U+2007 and U+202F.
   */
  predicate IsWhitespace(c: char)
  {
    || '\t' <= c <= '\r' || '\U{1C}' <= c <= ' '
    || c == '\U{1680}' || '\U{2000}' <= c <= '\U{2006}' || '\U{2008}' <= c <= '\U{200A}'
    || c == '\U{2028}' || c == '\U{2029}' || c == '\U{205F}' || c == '\U{3000}'
  }

  /** `String.isBlank`: empty or whitespace only. */
  predicate Blank(s: string)
  {
    forall i :: 0 <= i < |s| ==> IsWhitespace(s[i])
  }

  /** Made only of what `trim` drops. */
  predicate Spaces(s: string)
  {
    forall i :: 0 <= i < |s| ==> IsSpace(s[i])
  }

  /** A required text field is missing when it is null or blank (`x == null || x.isBlank()`). */
  predicate Missing(t: Option<string>)
  {
    t.None? || Blank(t.value)
  }

  /** The number of whitespace characters `s` starts with. */
  function LeadingSpaces(s: string): (n: nat)
    ensures n <= |s|
    ensures forall i :: 0 <= i < n ==> IsSpace(s[i])
    ensures n < |s| ==> !IsSpace(s[n])
  {
    if |s| > 0 && IsSpace(s[0]) then 1 + LeadingSpaces(s[1..]) else 0
  }

  /** The number of whitespace characters `s` ends with. */
  function TrailingSpaces(s: string): (n: nat)
    ensures n <= |s|
    ensures forall i :: |s| - n <= i < |s| ==> IsSpace(s[i])
    ensures n < |s| ==> !IsSpace(s[|s| - n - 1])
  {
    if |s| > 0 && IsSpace(s[|s| - 1]) then 1 + TrailingSpaces(s[..|s| - 1]) else 0
  }

  /**
   * `r` is what is left of `s` after dropping whitespace before index `i`
   * and after index `i + |r|`.
   */
  ghost predicate StripsTo(s: string, r: string, i: int)
  {
    && 0 <= i <= |s| - |r|
    && r == s[i..i + |r|]
    && (forall k :: 0 <= k < i ==> IsSpace(s[k]))
    && (forall k :: i + |r| <= k < |s| ==> IsSpace(s[k]))
  }

  /** `String.trim`: drop whitespace at both ends; the result neither starts nor ends with whitespace. */
  function Trim(s: string): (r: string)
    ensures r == [] || (!IsSpace(r[0]) && !IsSpace(r[|r| - 1]))
  {
    var i := LeadingSpaces(s);
    if i == |s| then [] else s[i..|s| - TrailingSpaces(s)]
  }

  /** Trimming keeps exactly the infix of `s` between its leading and its trailing whitespace. */
  lemma TrimStrips(s: string)
    ensures StripsTo(s, Trim(s), LeadingSpaces(s))
  {
  }

  /** Trimming leaves nothing exactly when every character is one `trim` drops. */
  lemma TrimEmpty(s: string)
    ensures Trim(s) == [] <==> Spaces(s)
  {
    if !Spaces(s) {
      var k :| 0 <= k < |s| && !IsSpace(s[k]);
      assert LeadingSpaces(s) <= k;
    }
  }

  /**
   * A text made of the whitespace both notions share is blank and trims to
   * nothing. A control character such as U+0001 is not blank but is trimmed
   * away; a Unicode space such as U+2000 is blank but is not trimmed.
   */
  lemma BlankAndTrim(s: string)
    ensures (forall i :: 0 <= i < |s| ==> IsSpace(s[i]) && IsWhitespace(s[i])) ==> Blank(s) && Trim(s) == []
    ensures !Blank("\U{1}") && Trim("\U{1}") == []
    ensures Blank("\U{2000}") && Trim("\U{2000}") == "\U{2000}"
  {
    TrimEmpty(s);
    TrimEmpty("\U{1}");
    assert !IsSpace("\U{2000}"[0]);
  }

  /** A text that neither starts nor ends with whitespace is left as it is by trimming. */
  lemma TrimOfTrimmed(r: string)
    requires r == [] || (!IsSpace(r[0]) && !IsSpace(r[|r| - 1]))
    ensures Trim(r) == r
  {
    if r != [] {
      assert LeadingSpaces(r) == 0 && TrailingSpaces(r) == 0;
    }
  }

  /** Trimming twice is trimming once. */
  lemma TrimIdempotent(s: string)
    ensures Trim(Trim(s)) == Trim(s)
  {
    TrimOfTrimmed(Trim(s));
  }

  /** Trimming a padded text gives back the text between the padding. */
  lemma TrimPadded(before: string, d: string, after: string)
    requires Spaces(before) && Spaces(after)
    requires d != [] && !IsSpace(d[0]) && !IsSpace(d[|d| - 1])
    ensures Trim(before + d + after) == d
  {
    var s := before + d + after;
    assert s[|before|] == d[0] && s[|before| + |d| - 1] == d[|d| - 1];
    assert LeadingSpaces(s) == |before|;
    assert TrailingSpaces(s) == |after|;
    assert s[|before|..|s| - |after|] == d;
  }
}
