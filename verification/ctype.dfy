/** The character classes of the kernel, on the codes its table defines. */
module Ctype {
  const LOWER_TO_UPPER := 'a' as int - 'A' as int

  predicate IsDigit(c: char) { '0' <= c <= '9' }
  predicate IsUpper(c: char) { 'A' <= c <= 'Z' }
  predicate IsXDigit(c: char) { IsDigit(c) || 'A' <= c <= 'F' || 'a' <= c <= 'f' }

  /** Tab, line feed, vertical tab, form feed, carriage return and space. */
  predicate IsSpace(c: char) { 9 <= c as int <= 13 || c == ' ' }

  function ToLower(c: char): char {
    if IsUpper(c) then (c as int + LOWER_TO_UPPER) as char else c
  }

  /** str_starts_with */
  predicate StartsWith(s: string, prefix: string): (b: bool)
    ensures b <==> prefix <= s
  {
    |prefix| <= |s| && s[..|prefix|] == prefix
  }
}
