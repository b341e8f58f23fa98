/** Character classes used by the regular expressions of the text-analytics
    helpers, restricted to ASCII (Python's `\w`, `\s` and `str.lower` are
    Unicode-aware; characters outside ASCII are neither word characters nor
    whitespace here). */
module Chars {

  predicate IsAsciiUpper(c: char) { 'A' <= c <= 'Z' }

  predicate IsAsciiLower(c: char) { 'a' <= c <= 'z' }

  predicate IsDigit(c: char) { '0' <= c <= '9' }

  /** `\w`: letters, digits and the underscore. */
  predicate IsWordChar(c: char) {
    IsAsciiUpper(c) || IsAsciiLower(c) || IsDigit(c) || c == '_'
  }

  /** `\s`: space, tab, newline, vertical tab, form feed, carriage return and
      the four separators 0x1C-0x1F that CPython's `str.isspace` accepts. */
  predicate IsSpace(c: char) {
    c == ' ' || (9 <= c as int <= 13) || (28 <= c as int <= 31)
  }

  /** The complement used when splitting at "not a word character". */
  predicate IsNonWordChar(c: char) { !IsWordChar(c) }

  /** Characters kept by `re.sub(r'[^\w\s]', '', ...)`. */
  predicate IsWordOrSpace(c: char) { IsWordChar(c) || IsSpace(c) }

  /** The RAKE punctuation class `[!"#$%&'()*+,-./:;<=>?@[\]^_`{|}~]`.  Inside
      the class `,-.` is the range from `,` to `.` and `\]` is a literal `]`,
      so the class is the ASCII punctuation characters except the backslash:
      the code points 33-47, 58-64, 91, 93-96 and 123-126.  It contains no
      whitespace and includes the underscore. */
  predicate IsRakePunct(c: char) {
    (33 <= c as int <= 47) || (58 <= c as int <= 64) || c as int == 91 ||
    (93 <= c as int <= 96) || (123 <= c as int <= 126)
  }

  function ToLower(c: char): (d: char)
    ensures IsAsciiUpper(c) ==> IsAsciiLower(d) && d as int == c as int + 32
    ensures !IsAsciiUpper(c) ==> d == c
  {
    if IsAsciiUpper(c) then (c as int + 32) as char else c
  }

  /** `str.lower()` on ASCII. */
  function Lower(s: string): (r: string)
    ensures |r| == |s|
    ensures forall i :: 0 <= i < |s| ==> r[i] == ToLower(s[i])
  {
    seq(|s|, i requires 0 <= i < |s| => ToLower(s[i]))
  }

  /** Lowering twice is lowering once, and a lowered text holds no
      upper-case letter. */
  lemma LowerIdempotent(s: string)
    ensures Lower(Lower(s)) == Lower(s)
    ensures forall i :: 0 <= i < |Lower(s)| ==> !IsAsciiUpper(Lower(s)[i])
  {
    forall i | 0 <= i < |s| ensures Lower(Lower(s))[i] == Lower(s)[i] {
      assert ToLower(ToLower(s[i])) == ToLower(s[i]);
    }
  }

  /** Lowering a character changes neither its word-character nor its
      whitespace status. */
  lemma ToLowerKeepsClass(c: char)
    ensures IsWordChar(ToLower(c)) == IsWordChar(c)
    ensures IsSpace(ToLower(c)) == IsSpace(c)
    ensures IsRakePunct(ToLower(c)) == IsRakePunct(c)
    ensures !IsAsciiUpper(ToLower(c))
  {
  }
}
