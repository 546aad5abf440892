/**
 * Character classes used by the string scanning code: Rust's `char::is_whitespace`
 * (which is also what the regex class `\s` means), and the ASCII classes the
 * model uses for `\d`, `\w` and `[a-zA-Z0-9.]`.
 */
module Chars {

  /** The Unicode White_Space property: what `str::trim` strips and what `\s` matches. */
  predicate IsWhitespace(c: char) {
    || ('\U{0009}' <= c <= '\U{000D}')
    || c == '\U{0020}'
    || c == '\U{0085}'
    || c == '\U{00A0}'
    || c == '\U{1680}'
    || ('\U{2000}' <= c <= '\U{200A}')
    || c == '\U{2028}'
    || c == '\U{2029}'
    || c == '\U{202F}'
    || c == '\U{205F}'
    || c == '\U{3000}'
  }

  /** `\d`, restricted to ASCII. */
  predicate IsDigit(c: char) {
    '0' <= c <= '9'
  }

  predicate IsAsciiLetter(c: char) {
    ('a' <= c <= 'z') || ('A' <= c <= 'Z')
  }

  /** `\w`, restricted to ASCII: letters, digits and the underscore. */
  predicate IsWordChar(c: char) {
    IsAsciiLetter(c) || IsDigit(c) || c == '_'
  }

  predicate AllDigits(s: string) {
    forall k :: 0 <= k < |s| ==> IsDigit(s[k])
  }

  predicate NoWhitespace(s: string) {
    forall k :: 0 <= k < |s| ==> !IsWhitespace(s[k])
  }

  /** `[\w-]`: a character of a host label. */
  predicate IsLabelChar(c: char) {
    IsWordChar(c) || c == '-'
  }

  /** `[a-zA-Z0-9.]`: a character of a Zoom password. */
  predicate IsPasswordChar(c: char) {
    IsAsciiLetter(c) || IsDigit(c) || c == '.'
  }

  /** The repeated character classes of the extractors' regular expressions. */
  datatype CharClass = Digit | LabelChar | PasswordChar | NonWhitespace

  predicate InClass(c: char, k: CharClass) {
    match k
    case Digit => IsDigit(c)
    case LabelChar => IsLabelChar(c)
    case PasswordChar => IsPasswordChar(c)
    case NonWhitespace => !IsWhitespace(c)
  }
}
