/** C strings and the few character classes the program uses (C locale). */
module CStrings {

  datatype Option<+T> = None | Some(value: T)

  /** The contents of a NUL-terminated buffer: everything before the terminator. */
  type CString = s: string | '\0' !in s

  /** The character a C program reads at index i, the terminator included. */
  function CharAt(s: string, i: nat): char {
    if i < |s| then s[i] else '\0'
  }

  function From(s: CString, i: nat): CString
    requires i <= |s|
  {
    s[i..]
  }

  function Upto(s: CString, i: nat): CString
    requires i <= |s|
  {
    s[..i]
  }

  predicate IsDigit(c: char) {
    '0' <= c <= '9'
  }

  predicate IsAlpha(c: char) {
    'a' <= c <= 'z' || 'A' <= c <= 'Z'
  }
}
