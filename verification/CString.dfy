/** Strings that end with a null character, which is not among their characters. */
module CString {
  /** The character at a position, or the null character at the end. */
  function At(s: string, i: nat): char
    requires i <= |s|
  {
    if i == |s| then '\0' else s[i]
  }

  ghost predicate Terminated(s: string) { '\0' !in s }
}
