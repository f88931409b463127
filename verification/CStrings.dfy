/** Strings as C has them. */
module CStrings {
  /** A string without NUL; the terminating NUL stands at index |s|. */
  type CString = s: string | '\0' !in s

  function At(s: CString, k: nat): char
    requires k <= |s|
  {
    if k < |s| then s[k] else '\0'
  }
}
