/**
 * The part of `fnmatch.fnmatch` the exclusion patterns use: `*` matches any
 * run of characters (including `/`), `?` any one character, and every other
 * character itself. Matching is on the whole string.
 */
module Glob {
  import opened PyStr

  predicate Literal(p: string) {
    '*' !in p && '?' !in p
  }

  /**
   * `fnmatch.fnmatch(s, pattern)`: without a `*` a match is one character of
   * `s` per pattern character; a lone `*` matches everything.
   */
  predicate GlobMatch(pattern: string, s: string)
    ensures GlobMatch(pattern, s) && '*' !in pattern ==> |s| == |pattern|
    ensures pattern == ['*'] ==> GlobMatch(pattern, s)
    decreases |pattern| + |s|
  {
    if pattern == [] then s == []
    else if pattern[0] == '*' then GlobMatch(pattern[1..], s) || (s != [] && GlobMatch(pattern, s[1..]))
    else s != [] && (pattern[0] == '?' || pattern[0] == s[0]) && GlobMatch(pattern[1..], s[1..])
  }

  /** A pattern without wildcards matches exactly itself. */
  lemma {:induction false} LiteralMatch(pattern: string, s: string)
    requires Literal(pattern)
    ensures GlobMatch(pattern, s) <==> s == pattern
    decreases |pattern|
  {
    if pattern != [] && s != [] {
      LiteralMatch(pattern[1..], s[1..]);
      if s[1..] == pattern[1..] && s[0] == pattern[0] {
        assert s == [s[0]] + s[1..] && pattern == [pattern[0]] + pattern[1..];
      }
    }
  }

  /** `*` followed by a literal suffix matches exactly the strings ending in that suffix. */
  lemma {:induction false} StarSuffixMatch(suffix: string, s: string)
    requires Literal(suffix)
    ensures GlobMatch(['*'] + suffix, s) <==> EndsWith(s, suffix)
    decreases |s|
  {
    var p := ['*'] + suffix;
    assert p[1..] == suffix;
    LiteralMatch(suffix, s);
    if s != [] {
      StarSuffixMatch(suffix, s[1..]);
      assert EndsWith(s, suffix) <==> s == suffix || EndsWith(s[1..], suffix) by {
        if |suffix| <= |s[1..]| {
          assert s[|s| - |suffix|..] == s[1..][|s[1..]| - |suffix|..];
        }
      }
    } else {
      assert EndsWith(s, suffix) <==> suffix == [];
    }
  }
}
