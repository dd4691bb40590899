/**
 * The Python `str` operations the analyser uses, over `string` (a sequence of
 * code points): `isspace`, `strip`, `split` on one separator character, `join`,
 * `startswith`, `endswith`, the `in` test and the non-overlapping `count`.
 */
module PyStr {

  /** `c.isspace()` in Python 3: the characters `str.strip()` removes. */
  predicate IsSpace(c: char)
    ensures c == ' ' || c == '\t' || c == '\n' || c == '\r' ==> IsSpace(c)
    ensures IsSpace(c) ==> c != '#' && c != '"' && c != '\'' && c != ',' && c != ':'
  {
    || ('\t' <= c <= '\r')
    || ('\U{1c}' <= c <= ' ')
    || c == '\U{85}' || c == '\U{a0}' || c == '\U{1680}'
    || ('\U{2000}' <= c <= '\U{200a}')
    || c == '\U{2028}' || c == '\U{2029}' || c == '\U{202f}' || c == '\U{205f}'
    || c == '\U{3000}'
  }

  predicate AllSpace(s: string) {
    forall i :: 0 <= i < |s| ==> IsSpace(s[i])
  }

  /**
   * `s.strip()`: `s` without its leading and trailing whitespace, removed one
   * character at a time from the front and then from the back.
   */
  function Strip(s: string): (r: string)
    ensures |r| <= |s|
    ensures r == [] <==> AllSpace(s)
    ensures r != [] ==> !IsSpace(r[0]) && !IsSpace(r[|r| - 1])
    decreases |s|
  {
    if s == [] then s
    else if IsSpace(s[0]) then
      assert AllSpace(s) <==> AllSpace(s[1..]) by {
        assert forall i :: 1 <= i < |s| ==> s[i] == s[1..][i - 1];
      }
      Strip(s[1..])
    else if IsSpace(s[|s| - 1]) then
      assert s[..|s| - 1][0] == s[0];
      Strip(s[..|s| - 1])
    else s
  }

  /** A string without surrounding whitespace is left as it is by `strip`. */
  lemma StripFixed(s: string)
    requires s != [] ==> !IsSpace(s[0]) && !IsSpace(s[|s| - 1])
    ensures Strip(s) == s
  {
  }

  /** `strip` only removes characters. */
  lemma {:induction false} StripWithin(s: string)
    ensures forall c :: c in Strip(s) ==> c in s
    decreases |s|
  {
    if s != [] {
      if IsSpace(s[0]) {
        StripWithin(s[1..]);
      } else if IsSpace(s[|s| - 1]) {
        StripWithin(s[..|s| - 1]);
      }
    }
  }

  /** `r` is `s` from index `i` on, with a whitespace prefix and a whitespace suffix removed. */
  predicate TrimOf(s: string, r: string, i: int) {
    0 <= i <= |s| - |r| && r == s[i..i + |r|] && AllSpace(s[..i]) && AllSpace(s[i + |r|..])
  }

  /**
   * What `strip` removes: the result is the part of `s` between a whitespace
   * prefix and a whitespace suffix. With `Strip`'s own contract (the result is
   * empty or has no whitespace at either end) this pins the result down.
   */
  lemma {:induction false} StripTrims(s: string)
    ensures exists i :: TrimOf(s, Strip(s), i)
    decreases |s|
  {
    var r := Strip(s);
    if s == [] {
      assert TrimOf(s, r, 0);
    } else if IsSpace(s[0]) {
      var t := s[1..];
      assert r == Strip(t);
      StripTrims(t);
      var i :| TrimOf(t, r, i);
      TrimFront(s, r, i);
    } else if IsSpace(s[|s| - 1]) {
      var t := s[..|s| - 1];
      assert r == Strip(t);
      StripTrims(t);
      var i :| TrimOf(t, r, i);
      TrimBack(s, r, i);
    } else {
      assert r == s;
      assert TrimOf(s, r, 0) by {
        assert s[..0] == [] && s[|s|..] == [] && s[0..|s|] == s;
      }
    }
  }

  /** A trim of `s[1..]` is a trim of `s` one further in, when `s[0]` is whitespace. */
  lemma TrimFront(s: string, r: string, i: int)
    requires s != [] && IsSpace(s[0]) && TrimOf(s[1..], r, i)
    ensures TrimOf(s, r, i + 1)
  {
    var t := s[1..];
    assert t[i..i + |r|] == s[i + 1..i + 1 + |r|];
    var pre := s[..i + 1];
    var tpre := t[..i];
    assert forall k :: 1 <= k < |pre| ==> pre[k] == tpre[k - 1];
    assert s[i + 1 + |r|..] == t[i + |r|..];
  }

  /** A trim of `s` without its last character is a trim of `s`, when that character is whitespace. */
  lemma TrimBack(s: string, r: string, i: int)
    requires s != [] && IsSpace(s[|s| - 1]) && TrimOf(s[..|s| - 1], r, i)
    ensures TrimOf(s, r, i)
  {
    var t := s[..|s| - 1];
    assert t[i..i + |r|] == s[i..i + |r|];
    assert s[..i] == t[..i];
    var suf := s[i + |r|..];
    var tsuf := t[i + |r|..];
    assert forall k :: 0 <= k < |tsuf| ==> suf[k] == tsuf[k];
    assert suf[|suf| - 1] == s[|s| - 1];
  }

  /** Stripping twice is stripping once. */
  lemma StripIdempotent(s: string)
    ensures Strip(Strip(s)) == Strip(s)
  {
    StripFixed(Strip(s));
  }

  /** Every character of a piece of `s` is a character of `s`. */
  ghost predicate PiecesFrom(r: seq<string>, s: string) {
    forall i, j :: 0 <= i < |r| && 0 <= j < |r[i]| ==> r[i][j] in s
  }

  /**
   * `s.split(sep)` for a one-character separator: the maximal runs between
   * separators, so there is one piece more than there are separators, and an
   * empty piece at either end when `s` starts or ends with `sep`.
   */
  function Split(s: string, sep: char): (r: seq<string>)
    ensures |r| == multiset(s)[sep] + 1
    ensures forall i :: 0 <= i < |r| ==> sep !in r[i]
  {
    if s == [] then
      [[]]
    else
      var rest := Split(s[1..], sep);
      assert s == [s[0]] + s[1..];
      assert multiset(s) == multiset{s[0]} + multiset(s[1..]);
      if s[0] == sep then
        [[]] + rest
      else
        var r := [[s[0]] + rest[0]] + rest[1..];
        assert forall i :: 1 <= i < |r| ==> r[i] == rest[i];
        r
  }

  /** Every character of a piece of a split is a character of the text split. */
  lemma {:induction false} SplitFrom(s: string, sep: char)
    ensures PiecesFrom(Split(s, sep), s)
    decreases |s|
  {
    if s != [] {
      SplitFrom(s[1..], sep);
      var rest := Split(s[1..], sep);
      var r := Split(s, sep);
      forall i, j | 0 <= i < |r| && 0 <= j < |r[i]| ensures r[i][j] in s {
        if s[0] == sep {
          assert r[i] == rest[i - 1];
          assert rest[i - 1][j] in s[1..];
        } else if i == 0 {
          if j > 0 {
            assert r[0][j] == rest[0][j - 1];
            assert rest[0][j - 1] in s[1..];
          }
        } else {
          assert r[i] == rest[i];
          assert rest[i][j] in s[1..];
        }
      }
    }
  }

  /** `sep.join(parts)`: the partner of `Split`. */
  function Join(parts: seq<string>, sep: char): (r: string)
    ensures parts != [] ==> |r| >= |parts[0]| && r[..|parts[0]|] == parts[0]
  {
    if parts == [] then []
    else if |parts| == 1 then parts[0]
    else parts[0] + [sep] + Join(parts[1..], sep)
  }

  /** Joining the pieces of a split gives back the original text. */
  lemma {:induction false} JoinSplit(s: string, sep: char)
    ensures Join(Split(s, sep), sep) == s
  {
    if s != [] {
      JoinSplit(s[1..], sep);
      var rest := Split(s[1..], sep);
      assert s == [s[0]] + s[1..];
      SplitCons(s[0], s[1..], sep);
      if s[0] == sep {
        JoinAfterEmpty(rest, sep);
      } else {
        JoinExtendHead(s[0], rest, sep);
      }
    }
  }

  /** Splitting a text with a known first character: a new piece, or that character added to the first piece. */
  lemma SplitCons(c: char, t: string, sep: char)
    ensures var rest := Split(t, sep);
            Split([c] + t, sep) == if c == sep then [[]] + rest else [[c] + rest[0]] + rest[1..]
  {
    assert ([c] + t)[0] == c && ([c] + t)[1..] == t;
  }

  /** An empty first piece contributes only the separator. */
  lemma JoinAfterEmpty(rest: seq<string>, sep: char)
    requires rest != []
    ensures Join([[]] + rest, sep) == [sep] + Join(rest, sep)
  {
    assert ([[]] + rest)[1..] == rest;
  }

  /** A character put in front of the first piece ends up in front of the join. */
  lemma JoinExtendHead(c: char, rest: seq<string>, sep: char)
    requires rest != []
    ensures Join([[c] + rest[0]] + rest[1..], sep) == [c] + Join(rest, sep)
  {
    var r := [[c] + rest[0]] + rest[1..];
    if |rest| > 1 {
      assert r[1..] == rest[1..];
    }
  }

  /** Splitting a join of separator-free pieces gives back the pieces. */
  lemma {:induction false} SplitJoin(parts: seq<string>, sep: char)
    requires parts != []
    requires forall i :: 0 <= i < |parts| ==> sep !in parts[i]
    ensures Split(Join(parts, sep), sep) == parts
  {
    if |parts| == 1 {
      SplitPlain(parts[0], sep);
    } else {
      SplitJoin(parts[1..], sep);
      SplitPrefix(parts[0], Join(parts[1..], sep), sep);
      assert [parts[0]] + parts[1..] == parts;
    }
  }

  /** A separator-free string splits into itself. */
  lemma {:induction false} SplitPlain(s: string, sep: char)
    requires sep !in s
    ensures Split(s, sep) == [s]
  {
    if s != [] {
      SplitPlain(s[1..], sep);
      assert [s[0]] + s[1..] == s;
    }
  }

  /** A separator-free head followed by a separator becomes one piece of its own. */
  lemma SplitPrefix(head: string, tail: string, sep: char)
    requires sep !in head
    ensures Split(head + [sep] + tail, sep) == [head] + Split(tail, sep)
  {
    var s := head + [sep] + tail;
    var k := |head|;
    assert s[..k] == head && s[k] == sep && s[k + 1..] == tail;
    SplitAt(s, sep, k);
  }

  /** The first separator at index `k` closes the first piece. */
  lemma {:induction false} SplitAt(s: string, sep: char, k: nat)
    requires k < |s| && s[k] == sep && sep !in s[..k]
    ensures Split(s, sep) == [s[..k]] + Split(s[k + 1..], sep)
    decreases k
  {
    var t := s[1..];
    assert [s[0]] + t == s;
    SplitCons(s[0], t, sep);
    if k == 0 {
      assert s[..0] == [];
    } else {
      assert s[..k][0] == s[0] && s[..k][1..] == t[..k - 1];
      SplitAt(t, sep, k - 1);
      assert t[k..] == s[k + 1..];
      assert [s[0]] + t[..k - 1] == s[..k];
    }
  }

  /** `s.startswith(p)`. */
  predicate StartsWith(s: string, p: string)
    ensures p == [] ==> StartsWith(s, p)
    ensures StartsWith(s, p) ==> |p| <= |s|
  {
    |p| <= |s| && s[..|p|] == p
  }

  /** `s.endswith(p)`. */
  predicate EndsWith(s: string, p: string)
    ensures p == [] ==> EndsWith(s, p)
    ensures EndsWith(s, p) ==> |p| <= |s|
  {
    |p| <= |s| && s[|s| - |p|..] == p
  }

  /** `sub in s`: `sub` occurs somewhere in `s`. */
  predicate Contains(s: string, sub: string)
    ensures Contains(s, sub) ==> |sub| <= |s|
    ensures StartsWith(s, sub) ==> Contains(s, sub)
  {
    StartsWith(s, sub) || (s != [] && Contains(s[1..], sub))
  }

  /**
   * `s.count(sub)` for a non-empty `sub`: occurrences found scanning left to
   * right, each search resuming after the previous match.
   */
  function Count(s: string, sub: string): (n: nat)
    requires sub != []
    ensures n > 0 <==> Contains(s, sub)
    decreases |s|
  {
    if |s| < |sub| then 0
    else if StartsWith(s, sub) then 1 + Count(s[|sub|..], sub)
    else Count(s[1..], sub)
  }

  /** `sub` occurs in `s` at index `i`. */
  predicate OccursAt(s: string, sub: string, i: int) {
    0 <= i && i + |sub| <= |s| && s[i..i + |sub|] == sub
  }

  /** Occurrences in a suffix of `s` are occurrences in `s`, shifted. */
  lemma OccursDrop(s: string, sub: string, k: int, i: int)
    requires 0 <= k <= |s| && 0 <= i
    ensures OccursAt(s[k..], sub, i) <==> OccursAt(s, sub, i + k)
  {
    if 0 <= i && i + |sub| <= |s| - k {
      assert s[k..][i..i + |sub|] == s[i + k..i + k + |sub|];
    }
  }

  /** `sub in s` holds exactly when `sub` occurs at some index of `s`. */
  lemma {:induction false} ContainsAt(s: string, sub: string)
    ensures Contains(s, sub) <==> exists i :: OccursAt(s, sub, i)
    decreases |s|
  {
    if StartsWith(s, sub) {
      assert OccursAt(s, sub, 0);
    } else if s != [] {
      ContainsAt(s[1..], sub);
      if Contains(s[1..], sub) {
        var i :| OccursAt(s[1..], sub, i);
        OccursDrop(s, sub, 1, i);
      }
      if exists i :: OccursAt(s, sub, i) {
        var i :| OccursAt(s, sub, i);
        assert i != 0;
        OccursDrop(s, sub, 1, i - 1);
      }
    } else {
      assert forall i :: !OccursAt(s, sub, i);
    }
  }

  /** `sub` occurs twice in `s` without overlapping. */
  ghost predicate TwoApart(s: string, sub: string) {
    exists i, j :: OccursAt(s, sub, i) && OccursAt(s, sub, j) && i + |sub| <= j
  }

  /**
   * The count that decides whether a line opens a block or holds a whole
   * string: `s.count(sub) >= 2` exactly when `sub` occurs twice in `s`
   * without overlapping.
   */
  lemma {:induction false} CountTwo(s: string, sub: string)
    requires sub != []
    ensures Count(s, sub) >= 2 <==> TwoApart(s, sub)
    decreases |s|
  {
    if |s| < |sub| {
      assert forall i :: !OccursAt(s, sub, i);
    } else if StartsWith(s, sub) {
      CountTwoAtStart(s, sub);
    } else {
      CountTwo(s[1..], sub);
      CountTwoSkip(s, sub);
    }
  }

  /** A match at the start: two apart exactly when the rest still holds one. */
  lemma CountTwoAtStart(s: string, sub: string)
    requires sub != [] && StartsWith(s, sub)
    ensures Count(s, sub) == 1 + Count(s[|sub|..], sub)
    ensures TwoApart(s, sub) <==> Contains(s[|sub|..], sub)
  {
    var t := s[|sub|..];
    ContainsAt(t, sub);
    if Contains(t, sub) {
      var k :| OccursAt(t, sub, k);
      PairAtStart(s, sub, k);
    }
    if TwoApart(s, sub) {
      var i, j :| OccursAt(s, sub, i) && OccursAt(s, sub, j) && i + |sub| <= j;
      LaterInRest(s, sub, j);
    }
  }

  /** A match at or after index `|sub|` lies in the rest after the first `|sub|` characters. */
  lemma LaterInRest(s: string, sub: string, j: int)
    requires OccursAt(s, sub, j) && |sub| <= j
    ensures Contains(s[|sub|..], sub)
  {
    OccursDrop(s, sub, |sub|, j - |sub|);
    ContainsAt(s[|sub|..], sub);
  }

  /** The match at the start and a later one in the rest are two apart. */
  lemma PairAtStart(s: string, sub: string, k: int)
    requires StartsWith(s, sub) && OccursAt(s[|sub|..], sub, k)
    ensures TwoApart(s, sub)
  {
    OccursDrop(s, sub, |sub|, k);
    assert OccursAt(s, sub, 0) && OccursAt(s, sub, k + |sub|);
  }

  /** No match at the start: pairs apart in `s` are the pairs apart in `s[1..]`, shifted. */
  lemma CountTwoSkip(s: string, sub: string)
    requires sub != [] && |sub| <= |s| && !StartsWith(s, sub)
    ensures Count(s, sub) == Count(s[1..], sub)
    ensures TwoApart(s, sub) <==> TwoApart(s[1..], sub)
  {
    if TwoApart(s[1..], sub) {
      var i, j :| OccursAt(s[1..], sub, i) && OccursAt(s[1..], sub, j) && i + |sub| <= j;
      PairShifted(s, sub, i, j);
    }
    if TwoApart(s, sub) {
      var i, j :| OccursAt(s, sub, i) && OccursAt(s, sub, j) && i + |sub| <= j;
      assert i != 0;
      PairUnshifted(s, sub, i, j);
    }
  }

  /** A pair apart in `s[1..]` is one in `s`, one index later. */
  lemma PairShifted(s: string, sub: string, i: int, j: int)
    requires s != [] && OccursAt(s[1..], sub, i) && OccursAt(s[1..], sub, j) && i + |sub| <= j
    ensures TwoApart(s, sub)
  {
    OccursDrop(s, sub, 1, i);
    OccursDrop(s, sub, 1, j);
    assert OccursAt(s, sub, i + 1) && OccursAt(s, sub, j + 1);
  }

  /** A pair apart in `s` that does not start at 0 is one in `s[1..]`, one index earlier. */
  lemma PairUnshifted(s: string, sub: string, i: int, j: int)
    requires OccursAt(s, sub, i) && OccursAt(s, sub, j) && 0 < i && i + |sub| <= j
    ensures TwoApart(s[1..], sub)
  {
    OccursDrop(s, sub, 1, i - 1);
    OccursDrop(s, sub, 1, j - 1);
    assert OccursAt(s[1..], sub, i - 1) && OccursAt(s[1..], sub, j - 1);
  }
}
