/** The character classes of the C locale, which the program never changes (it does not
    call setlocale): the classes that decide file-name similarity and how the keep and
    confirm lines are read. */
module Chars {

  /** isdigit in the C locale: '0'..'9'. */
  predicate IsDigit(c: char) {
    '0' <= c <= '9'
  }

  /** isspace in the C locale: space, tab, newline, vertical tab, form feed, return. */
  predicate IsSpace(c: char) {
    c == ' ' || '\t' <= c <= '\r'
  }
}
