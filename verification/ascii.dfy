/** ASCII-only text helpers from GLib that the logging code relies on:
    `g_ascii_tolower`, `g_ascii_strcasecmp(a, b) == 0` and
    `g_str_has_prefix`. */
module Ascii {

  /** `g_ascii_tolower`: folds 'A'..'Z' onto 'a'..'z', leaves every other
      character alone. */
  function ToLower(c: char): (l: char)
    ensures 'A' <= c <= 'Z' ==> l as int == c as int + 32
    ensures !('A' <= c <= 'Z') ==> l == c
  {
    if 'A' <= c <= 'Z' then (c as int + 32) as char else c
  }

  /** `g_ascii_strcasecmp(a, b) == 0`: the strings agree character by
      character once ASCII letters are folded to lower case. */
  predicate EqualsIgnoreCase(a: string, b: string) {
    |a| == |b| && forall i :: 0 <= i < |a| ==> ToLower(a[i]) == ToLower(b[i])
  }

  /** The lower-case folding of a whole string. */
  function Lower(s: string): (l: string)
    ensures |l| == |s|
    ensures forall i :: 0 <= i < |s| ==> l[i] == ToLower(s[i])
  {
    if s == [] then [] else [ToLower(s[0])] + Lower(s[1..])
  }

  /** Case-insensitive equality is equality of the folded strings. */
  lemma {:induction false} EqualsIgnoreCaseIsLowerEquality(a: string, b: string)
    ensures EqualsIgnoreCase(a, b) <==> Lower(a) == Lower(b)
  {
    if Lower(a) == Lower(b) {
      assert |a| == |b|;
      forall i | 0 <= i < |a| ensures ToLower(a[i]) == ToLower(b[i]) {
        assert Lower(a)[i] == Lower(b)[i];
      }
    }
  }

  /** `g_str_has_prefix(s, p)`. */
  predicate HasPrefix(s: string, p: string) {
    |p| <= |s| && s[..|p|] == p
  }

  predicate HasSuffix(s: string, p: string) {
    |p| <= |s| && s[|s| - |p|..] == p
  }
}
