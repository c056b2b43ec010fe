/** The string helper of httputils.c. */
module HttpUtils {
  import opened CStrings

  /**
   * string_ends_with: str is at least as long as suffix and strcmp finds its
   * last |suffix| characters equal to suffix; that is, they are suffix.
   */
  predicate StringEndsWith(str: CString, suffix: CString)
    ensures StringEndsWith(str, suffix) <==>
            (|suffix| <= |str| && str[|str| - |suffix|..] == suffix)
  {
    |str| >= |suffix| && Strcmp(suffix, str[|str| - |suffix|..]) == 0
  }

  /** A suffix longer than the string never matches. */
  lemma EndsWithLongerSuffix(str: CString, suffix: CString)
    requires |suffix| > |str|
    ensures !StringEndsWith(str, suffix)
  {
  }

  /** Every string ends with the empty suffix. */
  lemma EndsWithEmpty(str: CString)
    ensures StringEndsWith(str, "")
  {
  }

  /** Whatever comes before it, a string ends with what was appended last. */
  lemma EndsWithAppended(p: CString, s: CString)
    ensures NUL !in p + s
    ensures StringEndsWith(p + s, s)
  {
    assert (p + s)[|p|..] == s;
  }

  /** In particular every string ends with itself. */
  lemma EndsWithItself(s: CString)
    ensures StringEndsWith(s, s)
  {
    EndsWithAppended("", s);
    assert "" + s == s;
  }
}
