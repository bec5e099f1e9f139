/** Prefix and suffix tests on strings, as `strings.HasPrefix` and `strings.HasSuffix` define them. */
module Affixes {

  /** `s` begins with `prefix`. */
  predicate HasPrefix(s: string, prefix: string)
  {
    |prefix| <= |s| && s[..|prefix|] == prefix
  }

  /** `s` ends with `suffix`. */
  predicate HasSuffix(s: string, suffix: string)
  {
    |suffix| <= |s| && s[|s| - |suffix|..] == suffix
  }
}
