/** NUL-terminated texts seen as sequences, and the blank-space predicate. */
module Text {

  /** A C string's characters: strlen stops at the first NUL, so none occurs inside. */
  predicate IsCString(s: seq<char>) {
    '\0' !in s
  }

  /** The character at position i of the text s followed by its terminator:
      every position from |s| on reads '\0'. */
  function At(s: seq<char>, i: nat): char {
    if i < |s| then s[i] else '\0'
  }

  /** dd_is_empty: the characters both cursors skip. */
  function IsEmpty(c: char): (r: bool)
    ensures r <==> c == '\n' || c == '\r' || c == '\t' || c == ' '
    ensures r ==> c != '\0'
  {
    match c
    case '\n' | '\r' | '\t' | ' ' => true
    case _ => false
  }
}
