/**
 This module gives the string-prefix test that the login filter's exclusion
 check rests on: a specification (`HasPrefix`) and a char-by-char
 implementation (`StartsWith`) in the manner of Java's `String.startsWith`.
 Strings are sequences of characters; comparison is exact and case-sensitive.
 */
module Strings {

  /** `s` begins with `prefix`: the first |prefix| characters of `s` are exactly `prefix`. */
  predicate HasPrefix(s: string, prefix: string) {
    |prefix| <= |s| && s[..|prefix|] == prefix
  }

  /** Compares `prefix` with the start of `s` one character at a time and
      stops at the first mismatch; a prefix longer than `s` never matches. */
  method StartsWith(s: string, prefix: string) returns (b: bool)
    ensures b <==> HasPrefix(s, prefix)
    ensures b ==> |prefix| <= |s| && forall i :: 0 <= i < |prefix| ==> s[i] == prefix[i]
    ensures !b ==> |s| < |prefix| || exists i :: 0 <= i < |prefix| && s[i] != prefix[i]
  {
    if |prefix| > |s| {
      return false;
    }
    var i := 0;
    while i < |prefix|
      invariant 0 <= i <= |prefix|
      invariant forall j :: 0 <= j < i ==> s[j] == prefix[j]
    {
      if s[i] != prefix[i] {
        assert s[..|prefix|][i] != prefix[i];
        return false;
      }
      i := i + 1;
    }
    assert s[..|prefix|] == prefix;
    return true;
  }

  /** Raw prefix matching is not segment-aware: whatever follows a prefix of
      `s` does not stop it from being a prefix of the longer string. */
  lemma HasPrefixExtends(s: string, suffix: string, prefix: string)
    requires HasPrefix(s, prefix)
    ensures HasPrefix(s + suffix, prefix)
  {
  }
}
