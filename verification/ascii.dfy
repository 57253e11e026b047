/** ASCII character classes used by the PCRE patterns and by PHP's `trim`. */
module Ascii {

  /** `[a-z]`, the first character of an extracted table name. */
  predicate IsLower(c: char) {
    'a' <= c <= 'z'
  }

  /** A PCRE word character `[A-Za-z0-9_]`, as matched by `\w` and bounded by `\b`. */
  predicate IsWordChar(c: char) {
    IsLower(c) || 'A' <= c <= 'Z' || '0' <= c <= '9' || c == '_'
  }

  /** A string made only of word characters (the empty string included). */
  predicate IsWordString(s: string) {
    forall i :: 0 <= i < |s| ==> IsWordChar(s[i])
  }

  /** The characters PHP's `trim` strips by default: " \t\n\r\0\x0B". */
  predicate IsTrimChar(c: char) {
    c == ' ' || c == '\t' || c == '\n' || c == '\r' || c == '\0' || c == '\U{000B}'
  }
}
