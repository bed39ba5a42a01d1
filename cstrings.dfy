/**
 * C strings seen as Dafny strings. A C program reads a NUL-terminated array of
 * characters; here a token is a `string` in which a NUL character, or the end
 * of the sequence, ends the C string.
 */
module CStrings {
  const NUL: char := 0 as char

  /** The character a C program reads at index `i`: past the end it reads the terminator. */
  function At(s: string, i: nat): char {
    if i < |s| then s[i] else NUL
  }

  /** The value of `s` as a C string: everything before its first terminator. */
  function CStr(s: string): (r: string)
    ensures |r| <= |s| && r == s[..|r|]
    ensures forall i :: 0 <= i < |r| ==> r[i] != NUL
    ensures At(s, |r|) == NUL
  {
    if |s| == 0 || s[0] == NUL then [] else [s[0]] + CStr(s[1..])
  }

  predicate NulFree(s: string) {
    forall i :: 0 <= i < |s| ==> s[i] != NUL
  }

  /** A string without a NUL is its own C string. */
  lemma CStrOfNulFree(s: string)
    requires NulFree(s)
    ensures CStr(s) == s
  {
  }

  /** The length of a C string is the index of its first terminator. */
  lemma CStrLength(s: string, n: nat)
    requires forall i :: 0 <= i < n ==> At(s, i) != NUL
    requires At(s, n) == NUL
    ensures |CStr(s)| == n
  {
  }
}
