/**
 * The character classes of ECMAScript regular expressions that the heading
 * pattern and the slug transform use, written out explicitly. Characters are
 * Unicode scalar values.
 */
module JsChars {

  /** LineTerminator: what `^` (multiline) follows and what `.` refuses. */
  predicate IsLineTerminator(c: char) {
    c == '\n' || c == '\r' || c == '\U{2028}' || c == '\U{2029}'
  }

  /**
   * The class `\s`: WhiteSpace (tab, vertical tab, form feed, space, no-break
   * space, zero-width no-break space and the space separators of category Zs)
   * together with every LineTerminator.
   */
  predicate IsWhitespace(c: char) {
    c == '\t' || c == '\U{000B}' || c == '\U{000C}' || c == ' '
    || c == '\U{00A0}' || c == '\U{1680}' || ('\U{2000}' <= c <= '\U{200A}')
    || c == '\U{202F}' || c == '\U{205F}' || c == '\U{3000}' || c == '\U{FEFF}'
    || IsLineTerminator(c)
  }

  predicate IsAscii(c: char) {
    c as int < 128
  }

  predicate IsAsciiUpper(c: char) {
    'A' <= c <= 'Z'
  }

  predicate IsAsciiLower(c: char) {
    'a' <= c <= 'z'
  }

  predicate IsDigit(c: char) {
    '0' <= c <= '9'
  }

  /** The class `\w` (no `u` or `i` flag): ASCII letters, digits and underscore. */
  predicate IsWordChar(c: char) {
    IsAsciiUpper(c) || IsAsciiLower(c) || IsDigit(c) || c == '_'
  }

  /** What the slug filter `[^\w-]` leaves in place. */
  predicate IsKept(c: char) {
    IsWordChar(c) || c == '-'
  }

  /** The characters an identifier produced from lowercased text can hold. */
  predicate IsIdChar(c: char) {
    IsAsciiLower(c) || IsDigit(c) || c == '_' || c == '-'
  }
}
