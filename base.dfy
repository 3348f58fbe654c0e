/** Shared vocabulary: an optional value, and the two character-level notions
    the matcher depends on (the regular-expression class `\s`, and the case
    canonicalisation of a case-insensitive match). */
module Base {

  datatype Option<T> = None | Some(value: T)

  /** The ECMAScript `\s` class: WhiteSpace and LineTerminator code points. */
  predicate IsSpace(c: char)
  {
    || c == ' ' || c == '\t' || c == '\n' || c == '\r'
    || c == '\U{000B}' || c == '\U{000C}'
    || c == '\U{00A0}' || c == '\U{1680}'
    || ('\U{2000}' <= c <= '\U{200A}')
    || c == '\U{2028}' || c == '\U{2029}' || c == '\U{202F}'
    || c == '\U{205F}' || c == '\U{3000}' || c == '\U{FEFF}'
  }

  /** Case canonicalisation used by a case-insensitive match (ASCII letters only). */
  function Fold(c: char): (r: char)
    ensures IsSpace(r) <==> IsSpace(c)
    ensures 'a' <= c <= 'z' ==> 'A' <= r <= 'Z'
    ensures !('a' <= c <= 'z') ==> r == c
  {
    if 'a' <= c <= 'z' then (c as int - 32) as char else c
  }

  /** True when every character of `s` is whitespace. */
  predicate AllSpaces(s: string)
  {
    forall k :: 0 <= k < |s| ==> IsSpace(s[k])
  }

  /** True when `s` holds at least one non-whitespace character. */
  predicate HasVisible(s: string)
  {
    exists k :: 0 <= k < |s| && !IsSpace(s[k])
  }
}
