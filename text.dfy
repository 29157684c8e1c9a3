/** Java's String.isBlank: every code point satisfies Character.isWhitespace. */
module Text {

  /** Character.isWhitespace: the space, line and paragraph separators other than the
      non-breaking ones (U+00A0, U+2007, U+202F), and the nine control characters
      U+0009..U+000D and U+001C..U+001F. */
  predicate IsWhitespace(c: char) {
    || c == ' '
    || ('\t' <= c <= '\r')
    || ('\U{1C}' <= c <= '\U{1F}')
    || c == '\U{1680}'
    || ('\U{2000}' <= c <= '\U{2006}')
    || ('\U{2008}' <= c <= '\U{200A}')
    || c == '\U{2028}' || c == '\U{2029}'
    || c == '\U{205F}' || c == '\U{3000}'
  }

  /** The string is empty or holds only white space. */
  predicate IsBlank(s: string) {
    forall i :: 0 <= i < |s| ==> IsWhitespace(s[i])
  }

  lemma BlankExamples()
    ensures IsBlank("") && IsBlank(" \t\n")
    ensures !IsBlank("Foundation") && !IsBlank("  a ")
  {
    assert !IsWhitespace("Foundation"[0]);
    assert !IsWhitespace("  a "[2]);
  }
}
