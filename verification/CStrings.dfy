/** C strings as the repository's pointer-walking code sees them. */
module CStrings {
  const NUL: char := '\0'

  /** The characters of a C string before its terminator. */
  type CString = s: string | NUL !in s

  datatype Option<+T> = None | Some(value: T)

  /** Reads the character at offset i; the terminator may be read, nothing beyond it. */
  function At(s: CString, i: nat): (c: char)
    requires i <= |s|
    ensures c == NUL <==> i == |s|
  {
    if i < |s| then s[i] else NUL
  }

  /** strchr used as a membership test; the terminator is not a member. */
  predicate IsInSet(c: char, chars: set<char>) {
    c != NUL && c in chars
  }
}
